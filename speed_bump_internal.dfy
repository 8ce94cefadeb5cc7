/**
 * The per-target record and the global counters shared by the registry and
 * the probe code (src/speed_bump_internal.h, globals of src/speed_bump_main.c).
 * Kernel objects (inodes, uprobes) are opaque handles; the kernel calls
 * made on them are recorded in a ghost trace so that their order and the
 * inode reference balance can be stated.
 */
module Internal {
  import opened SpeedBump

  /** A kernel error code as a pointer or int return carries it: -MAX_ERRNO..-1. */
  type Errno = e: int | -4095 <= e < 0 witness -1

  /** A kernel call made on behalf of a target. */
  datatype Event =
    | IGrab(inode: nat)
    | IPut(inode: nat)
    | UprobeRegister(inode: nat, offset: i64)
    | UnregisterNosync(uprobe: nat)
    | UnregisterSync

  /** How an event changes the number of inode references held. */
  function Delta(e: Event): int {
    match e
    case IGrab(_) => 1
    case IPut(_) => -1
    case _ => 0
  }

  /** Inode references taken minus references dropped. */
  function Refs(trace: seq<Event>): int {
    if trace == [] then 0 else Delta(trace[0]) + Refs(trace[1..])
  }

  lemma {:induction false} RefsAppend(a: seq<Event>, b: seq<Event>)
    ensures Refs(a + b) == Refs(a) + Refs(b)
  {
    if a == [] {
      assert a + b == b;
    } else {
      assert (a + b)[1..] == a[1..] + b;
      RefsAppend(a[1..], b);
    }
  }

  lemma RefsSingle(e: Event)
    ensures Refs([e]) == Delta(e)
  {
    assert [e][1..] == [];
  }

  /** struct speed_bump_target. */
  class Target {
    const path: string
    const symbol: string
    var delayNs: u64
    /** pid_filter: 0 when no pid was given. */
    var pidFilter: int
    var offset: i64
    var hitCount: u64
    var totalDelayNs: u64
    var inode: Option<nat>
    var uprobe: Option<nat>
    var registered: bool
    ghost var trace: seq<Event>

    /**
     * A target between two calls: it holds an inode reference and a uprobe
     * exactly when it is registered, and the trace shows that one reference
     * is held then and none otherwise.
     */
    ghost predicate Valid()
      reads this
    {
      (registered <==> inode.Some?) &&
      (registered <==> uprobe.Some?) &&
      Refs(trace) == (if registered then 1 else 0)
    }

    /** The fields add_target sets on a zeroed allocation. */
    constructor(path: string, symbol: string, delayNs: u64, pidFilter: int)
      ensures this.path == path && this.symbol == symbol
      ensures this.delayNs == delayNs && this.pidFilter == pidFilter
      ensures offset == 0 && hitCount == 0 && totalDelayNs == 0
      ensures inode.None? && uprobe.None? && !registered && trace == []
      ensures Valid()
    {
      this.path := path;
      this.symbol := symbol;
      this.delayNs := delayNs;
      this.pidFilter := pidFilter;
      offset := 0;
      hitCount := 0;
      totalDelayNs := 0;
      inode := None;
      uprobe := None;
      registered := false;
      trace := [];
    }
  }

  /** speed_bump_enabled, speed_bump_total_hits and speed_bump_total_delay. */
  class Globals {
    var enabled: int
    var totalHits: u64
    var totalDelay: u64

    /** The initial values: disabled, counters at zero. */
    constructor()
      ensures enabled == 0 && totalHits == 0 && totalDelay == 0
    {
      enabled := 0;
      totalHits := 0;
      totalDelay := 0;
    }
  }
}
