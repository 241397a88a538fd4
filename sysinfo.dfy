/**
 * The kernel's tick counter and the sysinfo system call of kern/sysinfo.c.
 * A timer interrupt every 10 ms increments `ticks`; the uptime handed to
 * user space is `ticks` in nanoseconds, and the tick handler panics before
 * that product could overflow 64 bits. The page counts come from the
 * physical allocator, the block and packet counters from the drivers; all
 * are fields here.
 */
module SysInfo {
  import opened MemLayout
  import opened Wrappers

  const NANOSECONDS_PER_MILLISECOND: nat := 1_000_000
  const NANOSECONDS_PER_TICK: nat := 10 * NANOSECONDS_PER_MILLISECOND
  const UINT64_MAX: nat := 0xFFFF_FFFF_FFFF_FFFF

  /** The largest tick count whose uptime in nanoseconds fits in 64 bits. */
  const MAX_TICKS: nat := UINT64_MAX / NANOSECONDS_PER_TICK

  /** struct sysinfo. */
  datatype Info = Info(uptime: u64, totalpages: u32, freepages: u32,
                       inblocks: u64, outblocks: u64, inpackets: u64, outpackets: u64)

  /** `ticks * NANOSECONDS_PER_TICK` in 64-bit arithmetic. */
  function Uptime(ticks: u64): (r: u64)
    ensures ticks <= MAX_TICKS ==> r == ticks * NANOSECONDS_PER_TICK
  {
    (ticks * NANOSECONDS_PER_TICK) % 0x1_0000_0000_0000_0000
  }

  /** While the tick count stays within MAX_TICKS, uptime only increases, by 10 ms per tick. */
  lemma UptimeAdvances(t1: u64, t2: u64)
    requires t1 <= t2 <= MAX_TICKS
    ensures Uptime(t2) - Uptime(t1) == (t2 - t1) * NANOSECONDS_PER_TICK
  {
  }

  /** The counters of kern/sysinfo.c and the page counts of the allocator. */
  class Counters {
    var ticks: u64
    var npages: u32
    var nfreepages: u32
    var inblocks: u64
    var outblocks: u64
    var inpackets: u64
    var outpackets: u64

    /** Every uptime sysinfo reports is exact. */
    predicate NoOverflow()
      reads this
    {
      ticks <= MAX_TICKS
    }

    /** Boot: `ticks` starts at 0. */
    constructor(npages: u32, nfreepages: u32)
      ensures ticks == 0 && NoOverflow()
      ensures this.npages == npages && this.nfreepages == nfreepages
      ensures inblocks == 0 && outblocks == 0 && inpackets == 0 && outpackets == 0
    {
      ticks := 0;
      this.npages := npages;
      this.nfreepages := nfreepages;
      inblocks, outblocks, inpackets, outpackets := 0, 0, 0, 0;
    }

    /**
     * time_tick: one more tick (a 64-bit increment), then a panic once the
     * count is past MAX_TICKS; the incremented count is kept either way.
     * A panic halts the kernel, so every tick starts from a count within
     * MAX_TICKS.
     */
    method TimeTick() returns (x: Exit<()>)
      requires NoOverflow()
      modifies this`ticks
      ensures ticks == old(ticks) + 1
      ensures x.Panicked? <==> ticks > MAX_TICKS
      ensures x.Returned? ==> NoOverflow()
      ensures x.Returned? ==> Uptime(ticks) == Uptime(old(ticks)) + NANOSECONDS_PER_TICK
    {
      ticks := (ticks + 1) % 0x1_0000_0000_0000_0000;
      if ticks > MAX_TICKS {
        return Panicked;
      }
      x := Returned(());
    }

    /** sysinfo: uptime from the tick count, every other field copied, and 0. */
    method Sysinfo() returns (info: Info, r: int)
      ensures r == 0
      ensures info.uptime == Uptime(ticks)
      ensures NoOverflow() ==> info.uptime == ticks * NANOSECONDS_PER_TICK
      ensures info.totalpages == npages && info.freepages == nfreepages
      ensures info.inblocks == inblocks && info.outblocks == outblocks
      ensures info.inpackets == inpackets && info.outpackets == outpackets
    {
      info := Info((ticks * NANOSECONDS_PER_TICK) % 0x1_0000_0000_0000_0000, npages, nfreepages,
                   inblocks, outblocks, inpackets, outpackets);
      r := 0;
    }
  }
}
