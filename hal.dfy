/** The fabric primitives (e-hal, e-loader) as seen from the driver: what
    each call may report, and a log entry for each call the launch protocol makes. */
module Hal {
  import opened Platform

  type Bytes = seq<bv8>

  /** Argument block header: the argument count and MAX_ARGS size slots. */
  datatype Header = Header(nargs: int, sizes: seq<int>)

  /** What the fabric answers to each fallible call, chosen by the environment.
      A core index in failingLoads (failingStarts) makes its load (start) fail. */
  datatype Fabric = Fabric(
    initOk: bool,         // e_init
    resetOk: bool,        // e_reset_system
    mallocOk: bool,       // malloc of the per-device data
    openOk: bool,         // e_open of the whole 4x4 grid
    ctrlAllocOk: bool,    // e_alloc of the control block
    argsAllocOk: bool,    // e_alloc of the argument block
    failingLoads: set<int>,
    failingStarts: set<int>)

  /** One fabric call made while launching, in the order it is issued. */
  datatype Op =
    | AllocArgs(offset: int, size: int)      // e_alloc of the argument block
    | WriteHeader(header: Header)            // e_write of the header at block offset 0
    | WriteArg(offset: int, data: Bytes)     // e_write of one argument into the block
    | WriteArgsOffset(value: int)            // e_write of the control block's argsoffset
    | Load(path: string, row: int, col: int) // e_load of the program onto one core
    | Mark(core: int)                        // e_write of STATUS_SCHEDULED into status[core]
    | Start(row: int, col: int)              // e_start of one core

  /** The launch phase an operation belongs to: argument packing, load, mark, start. */
  function Rank(op: Op): (k: nat)
    ensures k <= 3
    ensures k == 1 <==> op.Load?
    ensures k == 2 <==> op.Mark?
    ensures k == 3 <==> op.Start?
  {
    match op
    case Load(_, _, _) => 1
    case Mark(_) => 2
    case Start(_, _) => 3
    case _ => 0
  }

  /** Operations appear phase by phase: no operation of a later phase
      precedes one of an earlier phase. */
  ghost predicate PhaseOrdered(ops: seq<Op>)
  {
    forall i, j :: 0 <= i < j < |ops| ==> Rank(ops[i]) <= Rank(ops[j])
  }

  /** Every operation in ops belongs to phase k. */
  ghost predicate AllInPhase(ops: seq<Op>, k: nat)
  {
    forall i :: 0 <= i < |ops| ==> Rank(ops[i]) == k
  }
}
