/** The host-side Epiphany device: its lifecycle (init, fini), team open,
    and the launch call that packs arguments, then loads, marks and starts
    a range of cores. */
module EpiphanyDevice {
  import opened Platform
  import opened Hal
  import opened ArgsPacking
  import opened Launch

  /** dev_open's checks: only the whole grid can be opened, and only on an
      opened device; the range is checked first. */
  function OpenCheck(isOpen: bool, start: int, count: int): (r: Outcome)
    ensures r.Pass? <==> start == 0 && count == CORES && isOpen
    ensures !(start == 0 && count == CORES) ==> r == Fail(EINVAL)
    ensures start == 0 && count == CORES && !isOpen ==> r == Fail(EBADF)
  {
    if start != 0 || count != 16 then Fail(EINVAL)
    else if !isOpen then Fail(EBADF)
    else Pass
  }

  /** A team handle; dev_open binds it to the device. */
  class Team {
    var dev: Device?

    constructor ()
      ensures dev == null
    {
      dev := null;
    }
  }

  class Device {
    /** dev->dev_data is set: the per-device data exists. */
    var initialized: bool
    /** data->opened: the whole grid was opened through the fabric. */
    var isOpen: bool
    /** The control block's status words, one per core. */
    const status: array<int>
    /** The control block's argsoffset field. */
    var argsOffset: int
    /** The fabric calls issued by launches, in order. */
    var trace: seq<Op>

    ghost predicate Valid()
      reads this
    {
      status.Length == CORES && (isOpen ==> initialized)
    }

    /** A device as the layer above creates it: no per-device data yet. */
    constructor ()
      ensures Valid() && fresh(status)
      ensures !initialized && !isOpen && trace == []
    {
      initialized := false;
      isOpen := false;
      status := new int[CORES];
      argsOffset := 0;
      trace := [];
    }

    /** dev_init: a no-op on an initialised device; otherwise bring up the
        fabric, open the grid, allocate and zero the control block. */
    method Init(fab: Fabric) returns (r: Outcome)
      requires Valid()
      modifies this, status
      ensures Valid() && trace == old(trace)
      ensures old(initialized) ==>
        && r == Pass && initialized && isOpen == old(isOpen)
        && argsOffset == old(argsOffset) && unchanged(status)
      ensures !old(initialized) ==>
        && (r == Pass <==> fab.initOk && fab.resetOk && fab.mallocOk && fab.openOk && fab.ctrlAllocOk)
        && (!fab.initOk || !fab.resetOk ==> r == Fail(EIO))
        && (fab.initOk && fab.resetOk && !fab.mallocOk ==> r == Fail(ENOMEM))
        && (fab.initOk && fab.resetOk && fab.mallocOk && !fab.openOk ==> r == Fail(EIO))
        && (fab.initOk && fab.resetOk && fab.mallocOk && fab.openOk && !fab.ctrlAllocOk ==> r == Fail(ENOMEM))
      ensures !old(initialized) && r.Pass? ==>
        && initialized && isOpen && argsOffset == 0
        && forall i :: 0 <= i < CORES ==> status[i] == STATUS_NONE
      ensures !old(initialized) && r.Fail? ==>
        && !initialized && !isOpen
        && argsOffset == old(argsOffset) && unchanged(status)
    {
      if initialized {
        return Pass;
      }
      if !fab.initOk {
        return Fail(EIO);
      }
      if !fab.resetOk {
        return Fail(EIO);
      }
      if !fab.mallocOk {
        return Fail(ENOMEM);
      }
      if !fab.openOk {
        return Fail(EIO);
      }
      if !fab.ctrlAllocOk {
        return Fail(ENOMEM);
      }
      // the whole control block is written as zeroes
      forall i | 0 <= i < CORES {
        status[i] := 0;
      }
      argsOffset := 0;
      isOpen := true;
      initialized := true;
      return Pass;
    }

    /** dev_fini: release the per-device data; nothing to do if there is none. */
    method Fini()
      requires Valid()
      modifies this
      ensures Valid() && !initialized && !isOpen
      ensures argsOffset == old(argsOffset) && trace == old(trace)
    {
      if !initialized {
        return;
      }
      isOpen := false;
      initialized := false;
    }

    /** dev_open: bind the team to this device when the checks pass. */
    method Open(team: Team, start: int, count: int) returns (r: Outcome)
      requires Valid()
      modifies team
      ensures r == OpenCheck(isOpen, start, count)
      ensures r.Pass? ==> team.dev == this
      ensures r.Fail? ==> team.dev == old(team.dev)
    {
      if start != 0 || count != 16 {
        return Fail(EINVAL);
      }
      if !isOpen {
        return Fail(EBADF);
      }
      team.dev := this;
      return Pass;
    }

    /** dev_run: launch program `path` on cores [start, start + size) with
        the given arguments. */
    method Run(path: string, start: int, size: int, args: seq<Bytes>, fab: Fabric) returns (r: int)
      requires Valid() && |args| <= MAX_ARGS
      modifies this, status
      ensures Valid() && initialized == old(initialized) && isOpen == old(isOpen)
      ensures var L := LaunchSpec(old(initialized && isOpen), start, size, args, path, fab);
        && r == L.code
        && trace == old(trace) + L.ops
        && argsOffset == (if L.argsOffset.Some? then L.argsOffset.value else old(argsOffset))
        && (L.marked ==> forall i :: 0 <= i < CORES ==>
              status[i] == if start <= i < start + size then STATUS_SCHEDULED else old(status[i]))
        && (!L.marked ==> status[..] == old(status[..]))
    {
      if start < 0 || size <= 0 {
        return -EINVAL;
      }
      if 16 < start + size {
        return -EINVAL;
      }
      if !initialized || !isOpen {
        return -EBADF;
      }

      r := PackAndLaunch(path, start, size, args, fab);
    }

    /** dev_run past its checks: copy the arguments, then load, mark and
        start the range. */
    method PackAndLaunch(path: string, start: int, size: int, args: seq<Bytes>, fab: Fabric) returns (r: int)
      requires Valid() && RangeOk(start, size) && |args| <= MAX_ARGS
      modifies this`trace, this`argsOffset, status
      ensures var L := LaunchSpec(true, start, size, args, path, fab);
        && r == L.code
        && trace == old(trace) + L.ops
        && argsOffset == (if L.argsOffset.Some? then L.argsOffset.value else old(argsOffset))
        && (L.marked ==> forall i :: 0 <= i < CORES ==>
              status[i] == if start <= i < start + size then STATUS_SCHEDULED else old(status[i]))
        && (!L.marked ==> unchanged(status))
    {
      var packed := PackArgs(args, fab);
      if !packed {
        return -ENOMEM;
      }
      PackedLaunch(true, start, size, args, path, fab);
      r := LoadMarkStart(path, start, size, fab);
    }

    /** The argument copy of dev_run: size the payload, refuse it above the
        ceiling, allocate a block of the rounded size that ends at
        ARGS_MEM_END_OFFSET, write the header and the arguments into it, and
        record the block in the control structure. */
    method PackArgs(args: seq<Bytes>, fab: Fabric) returns (ok: bool)
      requires |args| <= MAX_ARGS
      modifies this`trace, this`argsOffset
      ensures ok <==> ArgsSize(args) <= MAX_ARGS_SIZE && fab.argsAllocOk
      ensures ok ==>
        && trace == old(trace) + PackOps(args, TotalSize(ArgsSize(args)))
        && argsOffset == TotalSize(ArgsSize(args))
      ensures !ok ==> argsOffset == old(argsOffset)
      ensures ArgsSize(args) > MAX_ARGS_SIZE ==> trace == old(trace)
      ensures ArgsSize(args) <= MAX_ARGS_SIZE && !fab.argsAllocOk ==>
        trace == old(trace) + [AllocArgs(BlockBase(TotalSize(ArgsSize(args))), TotalSize(ArgsSize(args)))]
    {
      var argssize, header := PackHeader(args);
      if argssize > MAX_ARGS_SIZE {
        return false;
      }
      var totsize := RoundUp8(HEADER_SIZE + argssize);
      trace := trace + [AllocArgs(ARGS_MEM_END_OFFSET - totsize, totsize)];
      if !fab.argsAllocOk {
        return false;
      }
      CopyArgs(args, header);
      // record the block in the control structure
      argsOffset := totsize;
      trace := trace + [WriteArgsOffset(totsize)];
      return true;
    }

    /** The three strictly ordered loops of a launch: load every core, then
        mark every core SCHEDULED, then start every core. */
    method LoadMarkStart(path: string, start: int, size: int, fab: Fabric) returns (r: int)
      requires Valid() && RangeOk(start, size)
      modifies this`trace, status
      ensures var loads := Sweep(LoadCall(path), fab.failingLoads, start, start + size);
        var marks := Sweep(MarkCall, {}, start, start + size);
        var kicks := Sweep(StartCall, fab.failingStarts, start, start + size);
        && r == (if loads.ok && kicks.ok then 0 else -EIO)
        && trace == old(trace) + loads.ops + (if loads.ok then marks.ops + kicks.ops else [])
        && (loads.ok ==> forall j :: 0 <= j < CORES ==>
              status[j] == if start <= j < start + size then STATUS_SCHEDULED else old(status[j]))
        && (!loads.ok ==> unchanged(status))
    {
      ghost var loads := Sweep(LoadCall(path), fab.failingLoads, start, start + size);
      ghost var marks := Sweep(MarkCall, {}, start, start + size);
      var ok := CallCores(LoadCall(path), fab.failingLoads, start, start + size);
      if !ok {
        assert loads.ops + [] == loads.ops;
        return -EIO;
      }
      MarkScheduled(start, size);
      ok := CallCores(StartCall, fab.failingStarts, start, start + size);
      assert old(trace) + loads.ops + marks.ops + Sweep(StartCall, fab.failingStarts, start, start + size).ops
        == old(trace) + loads.ops + (marks.ops + Sweep(StartCall, fab.failingStarts, start, start + size).ops);
      if !ok {
        return -EIO;
      }
      return 0;
    }

    /** Write the header, then each argument right after the previous one. */
    method CopyArgs(args: seq<Bytes>, header: Header)
      modifies this`trace
      ensures trace == old(trace) + [WriteHeader(header)] + ArgWrites(args, 0)
    {
      trace := trace + [WriteHeader(header)];
      ghost var t1 := trace;
      ghost var written: seq<Op> := [];
      var offs := HEADER_SIZE;
      for k := 0 to |args|
        invariant offs == ArgOffset(args, k)
        invariant trace == t1 + written
        invariant ArgWrites(args, 0) == written + ArgWrites(args, k)
      {
        trace := trace + [WriteArg(offs, args[k])];
        written := written + [WriteArg(offs, args[k])];
        offs := offs + |args[k]|;
      }
    }

    /** The load loop and the kick-off loop: issue call c to each core of
        [lo, hi) in turn, giving up at the first core in fails. */
    method CallCores(c: Call, fails: set<int>, lo: int, hi: int) returns (ok: bool)
      requires c != MarkCall && lo <= hi
      modifies this`trace
      ensures trace == old(trace) + Sweep(c, fails, lo, hi).ops
      ensures ok == Sweep(c, fails, lo, hi).ok
    {
      ghost var done: seq<Op> := [];
      var i := lo;
      while i < hi
        invariant lo <= i <= hi
        invariant trace == old(trace) + done
        invariant Sweep(c, fails, lo, hi).ops == done + Sweep(c, fails, i, hi).ops
        invariant Sweep(c, fails, lo, hi).ok == Sweep(c, fails, i, hi).ok
      {
        SweepAdvance(c, fails, lo, i, hi, done);
        var call := CallOp(c, i);
        trace := trace + [call];
        done := done + [call];
        if i in fails {
          return false;
        }
        i := i + 1;
      }
      return true;
    }

    /** The mark loop: write STATUS_SCHEDULED into the status word of each
        core of [start, start + size). */
    method MarkScheduled(start: int, size: int)
      requires Valid() && 0 <= start && 0 < size && start + size <= CORES
      modifies this`trace, status
      ensures trace == old(trace) + Sweep(MarkCall, {}, start, start + size).ops
      ensures forall j :: 0 <= j < CORES ==>
        status[j] == if start <= j < start + size then STATUS_SCHEDULED else old(status[j])
    {
      ghost var done: seq<Op> := [];
      ghost var hi := start + size;
      var i := start;
      while i < start + size
        invariant start <= i <= hi
        invariant trace == old(trace) + done
        invariant Sweep(MarkCall, {}, start, hi) == Swept(done + Sweep(MarkCall, {}, i, hi).ops, Sweep(MarkCall, {}, i, hi).ok)
        invariant forall j :: 0 <= j < CORES ==>
          status[j] == if start <= j < i then STATUS_SCHEDULED else old(status[j])
      {
        status[i] := STATUS_SCHEDULED;
        trace := trace + [Mark(i)];
        done := done + [Mark(i)];
        i := i + 1;
      }
    }
  }
}
