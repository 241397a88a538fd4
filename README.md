# CSE451 (JOS) page-mapping core and small library routines, in Dafny

This project models the page-mapping system calls of a JOS-derived teaching
kernel and the user-level copy-on-write `fork` built on them, and then proves
properties of that model. It also models the small routines around that core:
address translation in `kern/pmap.h`, calendar arithmetic, the C half of the
Go runtime, Go integer formatting, the kernel monitor's command line, the
tick counter, `ls` and the Go Fibonacci program.

Modules, one per source file:

- `MemLayout` (memlayout.dfy) holds the address-space and page-table-entry constants. These are the standard JOS values from `inc/mmu.h` and `inc/memlayout.h`, except `PTE_COW`, which lib/fork.c defines. It also holds page numbers and the `ROUNDDOWN`/`ROUNDUP` functions on 32-bit addresses.
- `Wrappers` (wrappers.dfy) holds `Option`, which stands for a null pointer or an error, and `Exit`, a value or `Panicked`.
- `PhysAddr` (pmap.dfy) models `PADDR`, `KADDR`, `page2pa`, `pa2page` and `page2kva`, with their panics.
- `KernState` (kernstate.dfy) models the kernel state as the class `Kernel`:
  - frames with their reference counts and contents, and the free list;
  - environments with their parents and statuses;
  - one page-table entry per (environment, page number);
  - the page tables that exist, and `curenv`.
  
  `Kernel.Valid()` is the invariant that every operation keeps. Every reference count equals the number of mappings of its frame, and free frames are unmapped. The pmap.c operations (`page_alloc`, `page_free`, `page_insert`, `page_remove`, `page_lookup`, `pgdir_walk`) and `envid2env` are methods whose contracts are taken from the way syscall.c and fork.c use them.
- `Syscall` (syscall.dfy) models `sys_page_alloc`, `sys_page_map`, `sys_page_unmap` and the `syscall` dispatcher.
- `Fork` (fork.dfy) models `pgfault`, `duppage`, `fork` and `sfork` on the same kernel state. Reads of `uvpt`/`uvpd` become lookups in the caller's own table.
- `Time` (time.dfy) models the leap-year helpers, `epoch_to_tm` and the wrap check of `nanosleep` from lib/time.c.
- `GoRuntime` (libgo.dfy) models the hashing, comparison, descriptor-equality, append and string-building routines of lib/libgo.c.
- `SysInfo` (sysinfo.dfy) models `time_tick` and `sysinfo` from kern/sysinfo.c.
- `GoSys` (sys.dfy) models `Itoa`, `sprintArg`, `Sprint` and `Println` from lib/sys.go.
- `Monitor` (monitor.dfy) models kern/monitor.c:
  - `runcmd`, which tokenizes the line in place on a `char` array and looks up the command;
  - the exit condition of `monitor`;
  - the argument handling and rounding of `mon_showmappings`.
- `Ls` (ls.dfy) models user/ls.c. Output is a sequence of lines. The file system is a pair of functions passed in, one for `stat` and one for the records of a directory.
- `GoFib` (gofib.dfy) models user/gofib.go. The closure is a class with fields `a` and `b`, and `main` is a ten-step loop.

Some behaviour sits outside the repository's code, so the model takes it as input:

- Console input is a character parameter of `Syscall.Dispatch`.
- The lines `readline` returns are the input sequence of `Monitor.RunMonitor`.
- `atoi` is a function parameter.
- The file system of `ls` is the `Ls.FileSystem` parameter.

Panics are the `Panicked` value of `Exit`.

## Model

| member | source | states |
|---|---|---|
| MemLayout.PageNumber | kern/pmap.h:43 | PGNUM: the page number of an address is the unique n with n*PGSIZE <= a < (n+1)*PGSIZE |
| MemLayout.RoundDown | lib/fork.c:48 | ROUNDDOWN to a page: page aligned, at most the address, and within one page below it |
| MemLayout.SamePage | lib/fork.c:48 | rounding an address down keeps its page number |
| MemLayout.RoundUp | kern/monitor.c:71 | ROUNDUP to a page in 32-bit arithmetic: page aligned; the least aligned value >= a, or 0 when the addition wraps |
| PhysAddr.Paddr | kern/pmap.h:26-34 | PADDR panics iff kva < KERNBASE, and otherwise returns kva - KERNBASE |
| PhysAddr.Kaddr | kern/pmap.h:38-46 | KADDR panics iff PGNUM(pa) >= npages; when memory fits below 4GB above KERNBASE it returns pa + KERNBASE |
| PhysAddr.Page2Pa | kern/pmap.h:125-129 | page2pa is page aligned and equals i*PGSIZE, with page number i, for every index the machine can have |
| PhysAddr.Pa2Page | kern/pmap.h:131-137 | pa2page panics iff PGNUM(pa) >= npages, otherwise returns the index of the frame containing pa |
| PhysAddr.Page2Kva | kern/pmap.h:139-143 | page2kva succeeds exactly for indices below npages |
| PhysAddr.PaddrOfKaddr | kern/pmap.h:26-46 | PADDR(KADDR(pa)) == pa whenever PGNUM(pa) < npages and memory fits (at most 256MB) |
| PhysAddr.KaddrOfPaddr | kern/pmap.h:26-46 | KADDR(PADDR(kva)) == kva for every kernel address of a present frame |
| PhysAddr.Pa2PageOfPage2Pa | kern/pmap.h:125-137 | pa2page(page2pa(i)) == i for every i < npages |
| PhysAddr.Page2PaOfPa2Page | kern/pmap.h:125-137 | page2pa(pa2page(pa)) is pa rounded down to its page |
| PhysAddr.PaddrOfPage2Kva | kern/pmap.h:139-143 | PADDR(page2kva(i)) == page2pa(i) for every i < npages |
| PhysAddr.KaddrWrapsBeyondBound | kern/pmap.h:21-23 | past the 256MB bound KADDR wraps: it returns 0 for the first frame above the bound, and PADDR panics on that |
| KernState.ZeroPage | kern/syscall.c:68 | a zero-filled page of PGSIZE bytes |
| KernState.Load | user/testpage.c:41-42 | a user read succeeds iff the page is mapped user-readable, and yields that frame's byte at the page offset |
| KernState.Store | user/testpage.c:40 | a user write keeps the number of frames |
| KernState.StoreVisibleThroughAlias | user/testpage.c:38-42 | a write through one mapping is read back through any other mapping of the same frame, at the same offset |
| KernState.StoreInvisibleElsewhere | user/testpage.c:45-49 | a write leaves what every mapping of a different frame reads unchanged |
| KernState.CopyPage | lib/fork.c:50 | memmove of a page: when source is readable and destination writable, the destination frame receives the source frame's bytes and nothing else changes |
| KernState.CountedAfterSet | kern/syscall.c:66-71 | replacing a mapping keeps every frame's reference count equal to its number of mappings |
| KernState.CountedAfterClear | kern/syscall.c:177-178 | removing a mapping keeps every frame's reference count equal to its number of mappings |
| KernState.FreeIsUnmapped | kern/syscall.c:105-106 | under the invariant no mapping refers to a free frame |
| KernState.InvAfterSet | kern/syscall.c:66-71 | installing a mapping, freeing the frames that lose their last reference, preserves the kernel invariant |
| KernState.InvAfterClear | kern/syscall.c:177-197 | removing a mapping and freeing its frame when unreferenced preserves the kernel invariant |
| KernState.Kernel.FreeNotMapped | kern/syscall.c:105-106 | a frame on the free list has no mappings |
| KernState.Kernel.MappedFrameOk | kern/syscall.c:162-164 | every mapped frame is a real, allocated, non-page-table frame of an existing environment's existing table |
| KernState.Kernel.SelfResolves | lib/fork.c:121 | envid 0 and the caller's own id both resolve to curenv |
| KernState.Kernel.Lookup | kern/syscall.c:162-164 | page_lookup yields the entry iff the page is mapped, and null otherwise |
| KernState.Kernel.ResolveEnv | kern/syscall.c:98-103 | envid2env: 0 means curenv; otherwise an existing env whose id is the argument; an unknown id fails; with checkperm only the caller or its child |
| KernState.Kernel.PageAlloc | kern/syscall.c:105-106 | page_alloc fails iff the free list is empty; otherwise removes a free, unmapped frame with refcount 0 from it and zeroes it on request |
| KernState.Kernel.PageFree | kern/syscall.c:109-111 | page_free returns an unreferenced frame to the free list |
| KernState.Kernel.UserStore | user/testpage.c:40 | a user store succeeds iff the page is mapped user-writable, and memory becomes Store of the old memory |
| KernState.Kernel.UserCopyPage | lib/fork.c:50 | memmove between two mapped pages of the caller; memory becomes CopyPage of the old memory |
| KernState.Kernel.Exofork | lib/fork.c:105-108 | JOS's sys_exofork, which kern/syscall.c does not define: fails iff NENV environments exist; otherwise a fresh positive id, a not-runnable child of curenv with no mappings and no tables |
| KernState.Kernel.SetStatus | lib/fork.c:136-137 | JOS's sys_env_set_status, which kern/syscall.c does not define: fails with -E_BAD_ENV iff envid2env does, changing nothing; otherwise sets only that env's status |
| KernState.Kernel.WalkCreate | kern/pmap.h:145 | pgdir_walk with create fails iff the page table is missing and no frame is free; otherwise the table exists afterwards and only a free frame was used for it |
| KernState.Kernel.PageInsert | kern/syscall.c:66-71 | page_insert fails with -E_NO_MEM only when a page table is needed and no frame is free, changing nothing; otherwise the slot maps the frame with perm\|PTE_P, replacing any old mapping, whose frame is freed when it loses its last reference |
| KernState.Kernel.PageRemove | kern/syscall.c:177-197 | page_remove unmaps the slot, freeing the frame if that was its last reference; an unmapped slot is a no-op |
| Syscall.PermOkMeaning | kern/syscall.c:95 | the permission check as coded: PTE_U or PTE_P set, and no bit outside PTE_SYSCALL |
| Syscall.PermOkDocumentedIsUserPage | kern/syscall.c:72-73 | the documented check (U and P) implies the coded one and always yields a user-readable page |
| Syscall.PermOkAdmitsKernelOnlyPage | kern/syscall.c:95 | the coded check admits perm == PTE_P, which the comment forbids and which maps a page the user cannot access |
| Syscall.AllocCheck | kern/syscall.c:93-103 | sys_page_alloc's validation: -E_INVAL iff the va is out of range, misaligned or perm is bad, checked before the env; -E_BAD_ENV iff only the env lookup fails |
| Syscall.UnmapCheck | kern/syscall.c:190-195 | sys_page_unmap's validation: -E_INVAL iff the va is bad, before the env; -E_BAD_ENV iff only the env lookup fails |
| Syscall.MapCheck | kern/syscall.c:145-164 | sys_page_map's validation in its order; -E_BAD_ENV iff ranges and perm pass and an env fails; 0 iff every check passes and srcva is mapped (-1*E_INVAL is -E_INVAL) |
| Syscall.MapCheckDocumented | kern/syscall.c:117-131 | the documented validation passes only where the coded one does, yields user-readable pages, and never grants W over a read-only source |
| Syscall.MapCheckGrantsWriteToReadOnly | kern/syscall.c:165-166 | with the W check commented out, mapping a read-only page writable passes; the documented check rejects it with -E_INVAL |
| Syscall.AllocAndInsert | kern/syscall.c:105-112 | allocation and insertion: -E_NO_MEM exactly when frames run out, leaving tables, refcounts and the free list unchanged (the frame is given back); otherwise va maps a zeroed, fresh frame held only there |
| Syscall.SysPageAlloc | kern/syscall.c:82-115 | a rejected call returns its check's error with no state change; -E_NO_MEM iff memory runs out; on 0 va maps a fresh zero-filled frame, replacing the old mapping, and other mappings are unchanged |
| Syscall.SysPageMap | kern/syscall.c:133-175 | every failure changes nothing; rejects return the check's error before page_insert; on 0 dstva in dst maps srcva's frame with perm\|PTE_P and only that slot changes |
| Syscall.SysPageUnmap | kern/syscall.c:184-200 | returns the check's verdict; on 0 the va is unmapped and nothing else changes; unmapping an unmapped va is a 0-returning no-op |
| Syscall.AsInt32 | kern/syscall.c:219-226 | the (envid_t)/(int) casts: the 32-bit two's complement reading of a register |
| Syscall.Dispatch | kern/syscall.c:203-231 | an unknown number returns -E_INVAL changing nothing; cputs returns 0, cgetc the console character, getenvid curenv; env_destroy returns 0 or -E_BAD_ENV, -E_BAD_ENV iff envid2env fails, changing nothing; page_alloc and page_map return a failed check's verdict with no change, and after a passing check 0 or -E_NO_MEM, -E_NO_MEM exactly when memory runs out, with the handler's new page tables and memory on 0 (a fresh zeroed frame at va; dst's slot mapping src's frame with perm\|PTE_P); page_unmap returns its check's verdict and on 0 removes only that slot; register arguments are read as 32-bit signed ints |
| Fork.SingleBitTests | lib/fork.c:120-122 | the C tests perms & BIT of fork's loop are the bit-membership tests of the model |
| Fork.AccessBitTests | lib/fork.c:122-124 | the P&U and P&U&W tests are user-readable and user-writable |
| Fork.ActionFor | lib/fork.c:117-128 | exactly one branch per page: PTE_SHARE → share; else P&U&W → duppage; else P&U → read-only copy; else skip |
| Fork.ChildPermFacts | lib/fork.c:71-75 | duppage's perm is readable, not writable, COW; the read-only branch gives P\|U without W or COW; the share branch keeps W and SHARE; all pass the syscall check |
| Fork.CowPageLosesCow | lib/fork.c:124-125 | a P\|U\|COW page (already COW, not writable) is given to the child as plain P\|U, without the COW bit |
| Fork.ActionForDocumented | lib/fork.c:55-61 | the documented rule: writable or copy-on-write pages go through duppage |
| Fork.CowPageStaysCowDocumented | lib/fork.c:57-58 | under the documented rule a COW page stays COW in the child |
| Fork.PageVa | lib/fork.c:71 | pn*PGSIZE in 32 bits: page aligned, and with page number pn when it does not wrap |
| Fork.Duppage | lib/fork.c:66-80 | returns 0 iff both sys_page_map calls succeed; then the child and then the caller map the same frame P\|U\|COW, neither writable; a panic (from either call) changes nothing |
| Fork.AllocTemp | lib/fork.c:49 | sys_page_alloc at PFTEMP: a fresh zeroed frame, aliased nowhere, mapped P\|U\|W at PFTEMP only |
| Fork.CopyToTemp | lib/fork.c:49-50 | PFTEMP ends up mapped to a fresh frame holding the faulting page's bytes; nothing else changes |
| Fork.MoveTemp | lib/fork.c:51-52 | the mapping at PFTEMP moves to the faulting page with P\|U\|W and PFTEMP is unmapped |
| Fork.TempMoved | lib/fork.c:49-52 | the three table updates compose to "drop PFTEMP, map the page to the new frame" |
| Fork.Pgfault | lib/fork.c:14-53 | a fault without FEC_WR panics with no change; a write fault (COW or not) at a va below UTOP, on a page other than PFTEMP's, that is mapped user-readable, with memory available for the copy and for PFTEMP's page table, leaves ROUNDDOWN(addr) mapped P\|U\|W to a fresh frame with the old page's bytes, PFTEMP unmapped, every other slot unchanged |
| Fork.RepairIsolates | lib/fork.c:48-52 | after the repair, a write by the faulting env leaves every other env's mappings and bytes as they were |
| Fork.FaultAndRetry | lib/fork.c:14-53 | fault then retried write: the byte is read back by the writer, and every other env's mappings and bytes are unchanged |
| Fork.UserWrite | lib/fork.c:71-75 | a user write: direct when writable, otherwise through pgfault; on a COW page the other env's bytes stay unchanged |
| Fork.PermsAt | lib/fork.c:118-119 | an unmapped page reads as permissions fork skips |
| Fork.UpdatesTouchOnly | lib/fork.c:117-128 | one or two slot updates leave every other slot as it was |
| Fork.PageCopiedFrame | lib/fork.c:117-128 | a page's copy is unaffected by updates to other slots |
| Fork.DuplicatedNotWritable | lib/fork.c:71-77 | after fork, a duplicated page maps the same frame in parent and child, writable in neither, COW in both |
| Fork.MapIntoChild | lib/fork.c:121 | sys_page_map from the caller into the child: the child slot gets the caller's frame with the given perm, or nothing changes when memory is exhausted |
| Fork.DupIntoChild | lib/fork.c:123 | duppage inside fork: on return both slots map the caller's frame with the COW perm |
| Fork.ForkPage | lib/fork.c:118-126 | one iteration of fork's loop: the page is copied per ActionFor; only the child slot (and the caller's slot for duppage) changes; only duppage can panic |
| Fork.CopyStep | lib/fork.c:117-128 | the loop invariant advances by one page |
| Fork.CopyPageStep | lib/fork.c:117-128 | one loop step keeps the invariant that every page below the counter is copied |
| Fork.CopyAddressSpace | lib/fork.c:116-128 | every page below USTACKTOP is copied per ActionFor; a child page is missing only when memory ran out; only frames from the free list are used |
| Fork.MapAboveUtop | lib/fork.c:132-133 | the UXSTACKTOP..ULIM loop changes nothing: every srcva is >= UTOP and is rejected |
| Fork.GiveExceptionStack | lib/fork.c:130 | the child's exception stack page is a fresh zeroed frame mapped P\|U\|W, held nowhere else (never shared or COW) |
| Fork.ExStackKeepsCopy | lib/fork.c:128-130 | mapping the exception stack keeps the copied pages, and the child has nothing else above USTACKTOP |
| Fork.ForkParent | lib/fork.c:114-139 | the parent side: returns the child id only after setting it runnable; every page below USTACKTOP is copied per ActionFor, and a page the child should have is missing only when the free list is empty; other envs untouched; only free frames are used; exception stack fresh; panics only from duppage |
| Fork.Fork | lib/fork.c:98-140 | a failing sys_exofork panics; a returned id is a fresh positive child, runnable, with parent pages copied per ActionFor, a page missing only when the free list is empty, only free frames used, other slots untouched, nothing else mapped above USTACKTOP, and a fresh zeroed exception stack |
| Fork.Sfork | lib/fork.c:143-148 | sfork always panics |
| Time.IsLeap | lib/time.c:32-35 | the Gregorian rule: divisible by 400, or by 4 and not by 100 |
| Time.DaysPerYear | lib/time.c:37-40 | 366 iff leap, else 365 |
| Time.DaysPerMonth | lib/time.c:42-49 | February is 29 iff leap and 28 otherwise; other months 30 or 31 |
| Time.MonthsMakeYear | lib/time.c:42-49 | the twelve month lengths sum to the year's length |
| Time.YearsAscend | lib/time.c:64-65 | a later year starts after the whole of an earlier year |
| Time.YearSplitUnique | lib/time.c:64-67 | (year, day of year) is determined by the day count |
| Time.MonthsAscend | lib/time.c:69-70 | a later month starts after the whole of an earlier month |
| Time.MonthSplitUnique | lib/time.c:69-72 | (month, day of month) is determined by the day of the year |
| Time.LeapExamples | lib/time.c:32-40 | 1900 is common, 1972 and 2000 leap |
| Time.Centuries | lib/time.c:34 | a year divisible by 400 is divisible by 100, and one divisible by 100 is divisible by 4 |
| Time.ClockSplit | lib/time.c:59-61 | sec and min in [0,60) and hour in [0,24), recombining to the second of the day |
| Time.EpochToTm | lib/time.c:51-73 | sec, min in [0,60), hour in [0,24) recombining to epoch % 86400; wday == (days+4)%7; year >= 70 with years plus yday equal to epoch/86400; month < 12 and mday in [1, month length] |
| Time.SleepDeadline | lib/time.c:17-20 | nanosleep panics iff now + nanoseconds wraps past 2^64; otherwise the deadline is the sum |
| GoRuntime.HashEmpty | lib/libgo.c:68 | the hash of the empty key is 5381 |
| GoRuntime.HashSnoc | lib/libgo.c:71-72 | hash(k ++ [b]) == hash(k)*33 + b modulo 2^32 |
| GoRuntime.TypeHashIdentity | lib/libgo.c:65-74 | the loop computes djb2 of the first key_size bytes |
| GoRuntime.LexLessAsymmetric | lib/libgo.c:228-241 | lexicographic order is strict |
| GoRuntime.LexLessOfPrefixes | lib/libgo.c:233-235 | a difference within the common prefix decides the order |
| GoRuntime.LexLessOfCommonPrefix | lib/libgo.c:236-240 | when one string is a prefix of the other, the shorter is smaller |
| GoRuntime.Memcmp | lib/libgo.c:79 | memcmp is 0 iff the first n bytes agree, negative iff they are lexicographically smaller, positive iff larger |
| GoRuntime.TypeEqualIdentity | lib/libgo.c:76-80 | true iff the first key_size bytes agree |
| GoRuntime.Strcmp | lib/libgo.c:228-241 | three-way lexicographic compare: 0 iff equal, negative iff smaller, positive iff larger |
| GoRuntime.StringsEqual | lib/libgo.c:138-142 | true iff the two strings are equal (same length and bytes) |
| GoRuntime.PtrStringsEqual | lib/libgo.c:144-152 | true iff the pointers denote the same thing: both null, or strings with equal contents |
| GoRuntime.TypeDescriptorsEqual | lib/libgo.c:318-329 | reflexive; false on a single null; otherwise iff code, hash and reflection strings are equal |
| GoRuntime.TypeDescriptorsEquivalence | lib/libgo.c:318-329 | descriptor equality is symmetric and transitive |
| GoRuntime.IsPointerType | lib/libgo.c:102-107 | true iff code & 0x1f is 22 or 26 |
| GoRuntime.CopyInto | lib/libgo.c:357 | memcpy/memmove: the block is written at the offset and the rest of the buffer is unchanged |
| GoRuntime.Append | lib/libgo.c:340-360 | a null or empty append returns a unchanged; an overflowing count panics; otherwise count a.count+bcount, old elements then new; in place when capacity suffices, else a fresh buffer with capacity exactly count |
| GoRuntime.StringPlus | lib/libgo.c:296-309 | a fresh buffer of length s1.length+s2.length holding s1 ++ s2 |
| GoRuntime.ByteArrayToString | lib/libgo.c:283-294 | a fresh copy of exactly the first length bytes |
| SysInfo.Uptime | kern/sysinfo.c:28 | ticks*NANOSECONDS_PER_TICK in 64 bits, exact within the guard |
| SysInfo.UptimeAdvances | kern/sysinfo.c:15-22 | within the guard, uptime grows by exactly 10 ms per tick |
| SysInfo.Counters.constructor | kern/sysinfo.c:11-13 | ticks starts at 0 |
| SysInfo.Counters.TimeTick | kern/sysinfo.c:17-23 | ticks grows by exactly 1; panics iff it passes UINT64_MAX/NANOSECONDS_PER_TICK; a normal return keeps the uptime exact |
| SysInfo.Counters.Sysinfo | kern/sysinfo.c:25-36 | uptime is ticks*10*NANOSECONDS_PER_MILLISECOND, page counts and the four counters copied, and 0 returned |
| GoSys.DigitsWellFormed | lib/sys.go:52-61 | decimal digits are nonempty, all in '0'..'9', with no leading zero except for 0 itself |
| GoSys.ParseDigits | lib/sys.go:52-61 | the digits read back as the number |
| GoSys.ParseItoa | lib/sys.go:44-68 | Itoa is injective: reading the text back gives the integer |
| GoSys.ItoaFits | lib/sys.go:45 | every int's digits fit in 10 bytes, so the 32-byte buffer never underflows |
| GoSys.ItoaCases | lib/sys.go:47-66 | Itoa(0) == "0" and Itoa(i) == "-" + Itoa(-i) for negative i |
| GoSys.Itoa | lib/sys.go:44-68 | the backwards fill of the buffer yields the decimal text of i (i above the minimum int) |
| GoSys.ItoaAsWrittenOfMinInt | lib/sys.go:47-50 | as written, Itoa of the minimum int yields "-0" |
| GoSys.ItoaAsWrittenElsewhere | lib/sys.go:44-68 | as written, the code agrees with the specification on every other int |
| GoSys.ConcatSnoc | lib/sys.go:29-31 | one more argument appends its text |
| GoSys.SprintArg | lib/sys.go:15-24 | a string maps to itself, an int to Itoa, anything else to "XXX" |
| GoSys.Sprint | lib/sys.go:27-33 | the in-order concatenation of the arguments' texts; "" for none |
| GoSys.Println | lib/sys.go:40-42 | Sprint of the arguments followed by "\n" |
| Monitor.SkipWhite | kern/monitor.c:140-141 | the gobble loop stops at the end or at the first non-whitespace |
| Monitor.SkipWhiteSkipsWhite | kern/monitor.c:140-141 | everything it skips is whitespace |
| Monitor.EndOfToken | kern/monitor.c:151-152 | the scan stops at the end or at the first whitespace |
| Monitor.TokenHasNoWhite | kern/monitor.c:151-152 | a token contains no whitespace |
| Monitor.StartsFrom | kern/monitor.c:138-153 | each argument starts at a non-whitespace character |
| Monitor.Words | kern/monitor.c:150 | one word per start, the token found there |
| Monitor.StartsFromCoverAll | kern/monitor.c:138-153 | the words, joined, are the line's non-whitespace characters |
| Monitor.TokensHaveNoWhite | kern/monitor.c:150-152 | every token is nonempty and holds no whitespace |
| Monitor.StartsBetweenWhite | kern/monitor.c:138-152 | every token starts at the line start or after whitespace, and ends at the line end or at whitespace |
| Monitor.TokensSplitLine | kern/monitor.c:125 | the tokens are nonempty, free of tab, CR, LF and space, start after whitespace, and together hold every non-whitespace character in order |
| Monitor.StartsAfterWhite | kern/monitor.c:138-153 | every token starts at the line's start or just after whitespace (so tokens are maximal) |
| Monitor.IndexOf | kern/monitor.c:159-162 | the first table entry with the name, or the table's length |
| Monitor.OnlyCommandsReturnNonzero | kern/monitor.c:146-164 | too many args iff at least MAXARGS tokens; no command iff no tokens; both and an unknown name return 0; an invocation is the first matching entry with all tokens |
| Monitor.Mappings | kern/monitor.c:76-78 | one (va, va-KERNBASE) pair per page from lo up to hi |
| Monitor.ShowMappings | kern/monitor.c:59-80 | fewer than 3 args returns -1; otherwise the pages from ROUNDDOWN(begin) to ROUNDUP(end) are listed, and PADDR panics below KERNBASE |
| Monitor.MappingsSnoc | kern/monitor.c:76-78 | one more loop step appends the next page's (va, va-KERNBASE) pair |
| Monitor.MappingsCoverRange | kern/monitor.c:70-76 | every address in [begin, end) has its page listed |
| Monitor.Gobble | kern/monitor.c:140-141 | the in-place loop reaches SkipWhite and NULs what it passes |
| Monitor.ScanToken | kern/monitor.c:151-152 | the in-place scan reaches the end of the token |
| Monitor.Tokenize | kern/monitor.c:136-154 | the argv starts are exactly the tokens' starts unless there are too many; whitespace is overwritten with NUL |
| Monitor.ReadCString | kern/monitor.c:160 | reading a NUL-terminated argument yields the characters before the NUL |
| Monitor.TokenInPlace | kern/monitor.c:150-154 | after blanking, each argv entry reads as its token |
| Monitor.NextArg | kern/monitor.c:138-141 | the gobble loop stops at the next argument's start, or at the end exactly when no start is left |
| Monitor.ReadArgs | kern/monitor.c:150-160 | the argv pointers read as the tokens at their starts |
| Monitor.Execute | kern/monitor.c:155-163 | no arguments returns 0; an unknown name returns 0; otherwise the first matching command is called with all the arguments |
| Monitor.Call | kern/monitor.c:160 | calling a table entry: showmappings runs mon_showmappings, the others return 0 |
| Monitor.RunCmd | kern/monitor.c:128-165 | runcmd's outcome and result are those of the line interpreted as tokens |
| Monitor.LookupCommand | kern/monitor.c:159-163 | the first matching entry; the table's length iff the name is unknown |
| Monitor.RunLine | kern/monitor.c:179-181 | a NULL line is skipped and returns 0; any other line is run by runcmd |
| Monitor.RunMonitor | kern/monitor.c:167-184 | the monitor exits only at a line whose command returns a negative value, after all earlier lines continued |
| Ls.PadLeft | user/ls.c:45 | the %11d field: at least the width, ending in the text |
| Ls.PathTextJoins | user/ls.c:46-53 | a null prefix prints only the name; otherwise "/" separates prefix and name iff the prefix is nonempty and does not end in '/' |
| Ls.Ls1LineEnds | user/ls.c:54-58 | every line ends in "\n"; without -F it is field, path and newline |
| Ls.Ls1LineLong | user/ls.c:44-45 | with -l the line starts with the size padded to 11, then 'd' for directories or '-' |
| Ls.Ls1LineShort | user/ls.c:44-53 | without -l the line starts with the path |
| Ls.Ls1LineClassify | user/ls.c:54-58 | with -F a directory gets "/" and then an executable "*" before the newline |
| Ls.NamedMembers | user/ls.c:31 | exactly the records whose name is nonempty are kept |
| Ls.NamedSnoc | user/ls.c:30-31 | reading one more record keeps it iff it has a name |
| Ls.EntryLinesEach | user/ls.c:31-32 | one ls1 line per record, in order, each with the directory's prefix |
| Ls.PrintNamed | user/ls.c:30-32 | lsdir's read loop prints the line of every named record and nothing for unnamed ones, in order |
| Ls.LsDirStep | user/ls.c:30-32 | one loop step appends a line iff the name is nonempty |
| Ls.LsDir | user/ls.c:22-37 | lsdir: panics when the directory cannot be opened or ends in a short read; otherwise lines for the named entries in order |
| Ls.LsListsPathItself | user/ls.c:16-19 | a non-directory (or any path under -d) is listed by its path alone, with no prefix |
| Ls.List | user/ls.c:8-20 | ls: stat failure panics; a directory without -d is listed by contents, else the path itself |
| Ls.Count | user/ls.c:80 | a flag's counter is at most the number of options |
| Ls.FirstBad | user/ls.c:75-84 | the first option that is not -d, -F or -l |
| Ls.ParseFlags | user/ls.c:75-84 | accepts iff every option is d, F or l; each counter grows by its flag's occurrences before the first bad one |
| Ls.ListAllStopsAtPanic | user/ls.c:89-90 | once an operand panics, the whole listing panics |
| Ls.Umain | user/ls.c:68-92 | a bad flag prints only the usage; otherwise "/" with prefix "" when there are no operands, else each operand with itself as prefix |
| Ls.FlagsGiven | user/ls.c:75-81 | a flag is on iff it was given |
| Ls.CountIn | user/ls.c:80 | a counter is nonzero iff that flag occurs |
| GoFib.WrapAdd | user/gofib.go:10 | Go's wrapping int addition is compatible with wrapping |
| GoFib.FibBelowPow2 | user/gofib.go:5-6 | F(n) < 2^n |
| GoFib.FibFits | user/gofib.go:10 | the first 31 Fibonacci numbers fit in a 32-bit int |
| GoFib.FibClosure.constructor | user/gofib.go:8 | the state starts at (a, b) = (0, 1) |
| GoFib.FibClosure.Call | user/gofib.go:9-12 | each call sets (a, b) := (b, a+b) and returns the new a, which after n calls is the n-th Fibonacci number as a wrapped 32-bit int, and exactly F(n) for n <= 31 |
| GoFib.FibStep | user/gofib.go:10 | one step carries consecutive Fibonacci numbers forward |
| GoFib.FibMain | user/gofib.go:15-19 | ten calls in order: value j is F(j+1) and line j is its decimal text and a newline |
| GoFib.PrintlnInt | user/gofib.go:18 | sys.Println of one int prints its Itoa text and a newline |
| GoFib.FibsPrintedStep | user/gofib.go:16-18 | printing F(n+1) extends the printed values and lines by one |
| GoFib.FibPositive | user/gofib.go:5-6 | F(1..31) are positive ints |
| GoFib.FibGrows | user/gofib.go:5-6 | F(n) >= 1 for n >= 1 |

## Left out

- kern/nvme.c and kern/nvme.h are not part of this model. They are a device driver with MMIO and busy-waits.
- The MMIO accessors and `tlb_invalidate` in kern/pmap.h are not modelled. They are hardware access.
- pmap.c is not part of this model. `page_alloc`, `page_free`, `page_insert`, `page_remove`, `page_lookup`, `pgdir_walk` and `envid2env` are methods of `Kernel` whose contracts come from their callers. Their bodies are the smallest code that meets those contracts, not pmap.c's.
- `KernState.Kernel.ResolveEnv`: the permission rule of `envid2env` with checkperm is taken as "the caller or its child", following JOS. The code that implements it is not part of this model.
- `sys_cputs`, `sys_cgetc`, `sys_getenvid` and `sys_env_destroy` are modelled only by their return values in `Syscall.Dispatch`. Console output, `user_mem_assert` and the destruction of environments are left out.
- `Syscall.Dispatch`: `sys_env_destroy` is modelled only by its verdict, 0 or -E_BAD_ENV. The environment is not destroyed.
- The syscall numbers are not in any listed source file. `Syscall.Dispatch` numbers them 0 to 6 in the order of the switch.
- `set_pgfault_handler`, `sys_env_set_pgfault_upcall`, the user trap frame and the `thisenv` fix-up in lib/fork.c are left out. They are trap and upcall plumbing. `Fork.Pgfault` takes the fault address and error code as parameters.
- `KernState.Kernel.Exofork` and `KernState.Kernel.SetStatus` follow JOS's `sys_exofork` and `sys_env_set_status`. Neither exists in kern/syscall.c, and its dispatcher sends their numbers to the `-E_INVAL` default. Run against this kernel, `fork` would panic at lib/fork.c:107-108. The two contracts are the behaviour lib/fork.c relies on at its call sites. `Exofork` does not model the `-E_NO_MEM` failure of `env_setup_vm`.
- `Fork.Fork`: only the parent's side of `sys_exofork`'s dual return is modelled. `Exofork` never returns 0, so the child's branch (lib/fork.c:109-113) is present but unreachable.
- `Fork.Pgfault`: the results of its three system calls are ignored, as in the source. Its postcondition covers only a fault on a mapped, readable user page below UTOP with memory available. It also excludes a fault on PFTEMP's own page. There lib/fork.c:49-52 would allocate over, copy onto and then unmap PFTEMP itself, losing the page's bytes. In the other cases only the invariant is stated.
- `Fork.MapAboveUtop` is modelled, but the loop's page-directory reads are not. Every call it makes is rejected by the UTOP check.
- `mon_backtrace`, `mon_kerninfo`, `mon_help`, `mon_dumpmem`, `mon_modperms` and `readline` are left out as stack, linker or console I/O. Only `mon_showmappings` is modelled among the commands; the others are named in the table as returning 0.
- `Monitor.ShowMappings`: printing is modelled as the list of (va, pa) pairs. `atoi` is a function parameter, and the `int` to `uint32_t` conversion is explicit.
- The lib/libgo.c calls to function pointers through `__builtin_call_with_static_chain` are not modelled. `__go_empty_interface_compare`, `__go_type_hash_empty_interface` and `__go_type_equal_empty_interface` depend on them.
- These lib/libgo.c items are left out: `malloc`/`__go_new`, the panic stubs, `umain`/`gomain`, `efacetype`, `__go_check_interface_type`, the function descriptors and the `unsafe_Pointer` constant. They are either allocation and glue or declarations.
- `__go_type_hash_string` is not modelled. It hashes the bytes of the `go_string` header, not the string data, so no claim that equal strings hash equally is made.
- `GoRuntime.Append`: `element_size` is abstracted away. A buffer holds elements.
- `GoRuntime.StringPlus` requires the two lengths to sum to at most INT_MAX. lib/libgo.c:301 adds them in `int`, and the overflow beyond that bound is not modelled.
- `uptime`, `sleep` and the `sys_yield` wait loop of `nanosleep` are left out as clock and scheduling behaviour. `Time.SleepDeadline` models only the wrap check.
- `Time.EpochToTm` requires `epoch / 86400 + 4` to fit in an `int`. The source stores the day count in an `int` and computes `days + 4` in `int` for the weekday. Beyond that bound the C arithmetic overflows, which is undefined, and the model does not describe it.
- `GoSys.Itoa` excludes the minimum int with a precondition. The negation overflows there; see Findings.
- `GoSys.Println` returns the text instead of passing it to `sys_cputs`. Console output is I/O.
- The `stat`, `open` and `readn` calls of user/ls.c are the `Ls.FileSystem` parameter. A failed `stat` or `open` is `None`. The last `readn` result of a directory is kept, and a short read or a read error there panics.
- `Ls.LongField`: the size is printed as `PadLeft(ItoaSpec(size), 11)`, which matches `%11d` for the non-negative sizes a directory record holds. For a negative size, the padding rule of the console `printf` (lib/printfmt.c, which is not part of this model) may place the '-' differently, and the model does not describe it.
- `Ls.List`: lines printed before a panic are not kept. A panicking run is just `Panicked`.
- `Ls.ParseFlags`: the `int` flag counters are unbounded. Their overflow is not modelled.
- `argstart`/`argnext` are not modelled. The options of user/ls.c are given as the sequence of flag characters they return.
- lib/panic.c and user/sysinfo.c are left out. They only format and print.
- inc/time.h, inc/sysinfo.h and kern/sysinfo.h supply only types and constants.
- inc/mmu.h, inc/memlayout.h and inc/fs.h are not part of this model. `MemLayout` writes out the standard JOS values of the first two. `Ls` describes a file type only by the two facts ls tests: directory and executable.
- user/testpage.c is used only as evidence for the syscall contracts.

## Findings

| source | as written | input that shows it | evidently intended | confidence | as-written member | corrected member |
|---|---|---|---|---|---|---|
| kern/syscall.c:95 | the permission check accepts a perm with PTE_U or PTE_P set (bitwise or) | perm == PTE_P: accepted, and maps a page the user cannot access | both PTE_U and PTE_P required, as the comment at kern/syscall.c:72 says | not executed | Syscall.PermOkAdmitsKernelOnlyPage | Syscall.PermOkDocumentedIsUserPage |
| kern/syscall.c:165-166 | the read-only check of sys_page_map is commented out | mapping a P\|U source page with perm P\|U\|W returns 0 and grants write access | -E_INVAL when perm has PTE_W and the source is read-only (kern/syscall.c:130-131) | not executed | Syscall.MapCheckGrantsWriteToReadOnly | Syscall.MapCheckDocumented |
| lib/fork.c:124-125 | a present user page that is not writable is given to the child P\|U, even when it is marked COW | a parent page P\|U\|COW is mapped into the child without the COW bit | writable or COW pages go through duppage and stay COW (lib/fork.c:57-58) | not executed | Fork.CowPageLosesCow | Fork.CowPageStaysCowDocumented |
| lib/sys.go:47-50 | the negation of i overflows for the minimum int | Itoa(-2147483648) yields "-0" | the text "-2147483648" | not executed | GoSys.ItoaAsWrittenOfMinInt | GoSys.ParseItoa |
| kern/pmap.h:40-46 | KADDR adds KERNBASE in 32 bits with only the npages check | npages = 65537, pa = 0x10000000: KADDR returns 0, which then fails PADDR | a machine limited to 256MB, as the comment at kern/pmap.h:21-23 assumes | not executed | PhysAddr.KaddrWrapsBeyondBound | PhysAddr.PaddrOfKaddr |
