/** Argument checks and conversions the process syscalls of both kernel
    stages perform identically: page alignment, the mmap permission mask,
    and splitting a microsecond clock reading into a `TimeVal`. */
module UserArgs {
  import opened Machine
  import opened Tasks

  /** Size of a virtual-memory page in bytes. */
  const PAGE_SIZE: nat := 0x1000

  /** `VirtAddr::page_offset() == 0`: the address is page-aligned. */
  predicate PageAligned(va: Usize) {
    va % PAGE_SIZE == 0
  }

  /** `port & 7`: the read/write/execute bits of a permission word. For a
      non-negative machine word the low three bits are its remainder mod 8. */
  function PermissionBits(port: Usize): nat {
    port % 8
  }

  /** The permission check of `sys_mmap`: `port & 7` is non-zero and equals
      `port`. This holds exactly when `port` is one of 1..7. */
  predicate PermissionOk(port: Usize) {
    var p := PermissionBits(port);
    p != 0 && p == port
  }

  /** The permission check accepts exactly the non-empty subsets of
      {read, write, execute}: zero and anything with a higher bit fail. */
  lemma PermissionOkExactly(port: Usize)
    ensures PermissionOk(port) <==> 1 <= port <= 7
  {
  }

  /** Splits a microsecond count into whole seconds and the microseconds
      left over, as `get_time_us` results are reported to user space. */
  function SplitMicros(us: Usize): (tv: TimeVal)
    ensures tv.usec < 1_000_000
    ensures tv.sec * 1_000_000 + tv.usec == us
  {
    TimeVal(us / 1_000_000, us % 1_000_000)
  }

  /** The microsecond count a `TimeVal` denotes. */
  function Micros(tv: TimeVal): int {
    tv.sec * 1_000_000 + tv.usec
  }

  /** Splitting is undone by `Micros`, and every normalised `TimeVal` that
      fits a machine word is the split of the count it denotes. */
  lemma {:induction false} SplitMicrosRoundTrip(us: Usize, tv: TimeVal)
    ensures Micros(SplitMicros(us)) == us
    ensures tv.usec < 1_000_000 && Micros(tv) < USIZE_MODULUS ==>
      SplitMicros(Micros(tv)) == tv
  {
    if tv.usec < 1_000_000 && Micros(tv) < USIZE_MODULUS {
      var n := Micros(tv);
      var s := SplitMicros(n);
      DivModUnique(n, tv.sec, tv.usec, s.sec, s.usec);
    }
  }

  /** Quotient and remainder by 1_000_000 are unique. */
  lemma DivModUnique(n: int, q1: int, r1: int, q2: int, r2: int)
    requires 0 <= r1 < 1_000_000 && 0 <= r2 < 1_000_000
    requires q1 * 1_000_000 + r1 == n && q2 * 1_000_000 + r2 == n
    ensures q1 == q2 && r1 == r2
  {
  }
}
