/** The launch protocol of dev_run as a function of its inputs: range and
    open checks, argument packing, then the load, mark and start sweeps over
    the core range, each stopping at the first core whose call fails. */
module Launch {
  import opened Platform
  import opened Hal
  import opened ArgsPacking

  /** The per-core call a sweep issues. */
  datatype Call = LoadCall(path: string) | MarkCall | StartCall

  function CallOp(c: Call, i: int): Op
  {
    match c
    case LoadCall(path) => Load(path, Row(i), Col(i))
    case MarkCall => Mark(i)
    case StartCall => Start(Row(i), Col(i))
  }

  /** Operations a sweep issued, and whether every call succeeded. */
  datatype Swept = Swept(ops: seq<Op>, ok: bool)

  /** The loop `for (i = lo; i < hi; i++) { err = call(i); if (err) return -EIO; }`:
      the core indices whose call fails are `fails`. */
  function Sweep(c: Call, fails: set<int>, lo: int, hi: int): Swept
    decreases hi - lo
  {
    if hi <= lo then Swept([], true)
    else if lo in fails then Swept([CallOp(c, lo)], false)
    else
      var rest := Sweep(c, fails, lo + 1, hi);
      Swept([CallOp(c, lo)] + rest.ops, rest.ok)
  }

  /** A sweep that has issued `done` and reached core i < hi goes on with
      the call to i: it stops there if i fails, and carries on otherwise. */
  lemma SweepAdvance(c: Call, fails: set<int>, lo: int, i: int, hi: int, done: seq<Op>)
    requires i < hi
    requires Sweep(c, fails, lo, hi).ops == done + Sweep(c, fails, i, hi).ops
    requires Sweep(c, fails, lo, hi).ok == Sweep(c, fails, i, hi).ok
    ensures i in fails ==>
      Sweep(c, fails, lo, hi).ops == done + [CallOp(c, i)] && !Sweep(c, fails, lo, hi).ok
    ensures i !in fails ==>
      && Sweep(c, fails, lo, hi).ops == (done + [CallOp(c, i)]) + Sweep(c, fails, i + 1, hi).ops
      && Sweep(c, fails, lo, hi).ok == Sweep(c, fails, i + 1, hi).ok
  {
    if i !in fails {
      assert Sweep(c, fails, i, hi).ops == [CallOp(c, i)] + Sweep(c, fails, i + 1, hi).ops;
    }
  }

  /** A sweep issues its call to lo, lo + 1, ... in order, and no more
      calls than the range holds; a complete sweep issues one per core. */
  lemma {:induction false} SweepCalls(c: Call, fails: set<int>, lo: int, hi: int)
    ensures var s := Sweep(c, fails, lo, hi);
      && |s.ops| <= (if lo <= hi then hi - lo else 0)
      && (forall k :: 0 <= k < |s.ops| ==> s.ops[k] == CallOp(c, lo + k))
      && (s.ok ==> |s.ops| == (if lo <= hi then hi - lo else 0))
    decreases hi - lo
  {
    if hi <= lo {
    } else if lo in fails {
    } else {
      SweepCalls(c, fails, lo + 1, hi);
      var s, rest := Sweep(c, fails, lo, hi), Sweep(c, fails, lo + 1, hi);
      assert s.ops == [CallOp(c, lo)] + rest.ops;
      forall k | 0 < k < |s.ops| ensures s.ops[k] == CallOp(c, lo + k) {
        assert s.ops[k] == rest.ops[k - 1];
      }
    }
  }

  /** A sweep succeeds iff no core of [lo, hi) fails; a failing sweep stops
      right after its first failing core. */
  lemma {:induction false} SweepOutcome(c: Call, fails: set<int>, lo: int, hi: int)
    ensures var s := Sweep(c, fails, lo, hi);
      && (s.ok <==> forall i :: lo <= i < hi ==> i !in fails)
      && (!s.ok ==> 1 <= |s.ops| && lo + |s.ops| - 1 in fails
                    && forall i :: lo <= i < lo + |s.ops| - 1 ==> i !in fails)
    decreases hi - lo
  {
    if hi <= lo {
    } else if lo in fails {
    } else {
      SweepOutcome(c, fails, lo + 1, hi);
    }
  }

  /** Both halves of a sweep's shape. */
  lemma SweepShape(c: Call, fails: set<int>, lo: int, hi: int)
    ensures var s := Sweep(c, fails, lo, hi);
      && (s.ok <==> forall i :: lo <= i < hi ==> i !in fails)
      && |s.ops| <= (if lo <= hi then hi - lo else 0)
      && (forall k :: 0 <= k < |s.ops| ==> s.ops[k] == CallOp(c, lo + k))
      && (s.ok ==> |s.ops| == (if lo <= hi then hi - lo else 0))
      && (!s.ok ==> 1 <= |s.ops| && lo + |s.ops| - 1 in fails
                    && forall i :: lo <= i < lo + |s.ops| - 1 ==> i !in fails)
  {
    SweepCalls(c, fails, lo, hi);
    SweepOutcome(c, fails, lo, hi);
  }

  /** Every operation of a sweep belongs to the phase of its call. */
  lemma SweepInPhase(c: Call, fails: set<int>, lo: int, hi: int)
    ensures AllInPhase(Sweep(c, fails, lo, hi).ops, Rank(CallOp(c, 0)))
  {
    SweepShape(c, fails, lo, hi);
  }

  /** The core range a launch accepts: non-empty and inside the grid. */
  predicate RangeOk(start: int, size: int)
  {
    start >= 0 && size > 0 && start + size <= CORES
  }

  /** What a launch call does: its return code, the fabric calls it issues in
      order, the value it stores into argsoffset (if it gets that far), and
      whether it marks the range SCHEDULED. */
  datatype LaunchResult = LaunchResult(code: int, ops: seq<Op>, argsOffset: Option, marked: bool)

  datatype Option = None | Some(value: int)

  /** The fabric calls of the packing step for a block of totsize bytes. */
  function PackOps(args: seq<Bytes>, totsize: int): seq<Op>
  {
    [AllocArgs(BlockBase(totsize), totsize)] + PackWrites(args) + [WriteArgsOffset(totsize)]
  }

  /** dev_run on a device that is `ready` (initialised and opened). */
  function LaunchSpec(ready: bool, start: int, size: int, args: seq<Bytes>, path: string, fab: Fabric): LaunchResult
  {
    if !RangeOk(start, size) then LaunchResult(-EINVAL, [], None, false)
    else if !ready then LaunchResult(-EBADF, [], None, false)
    else if ArgsSize(args) > MAX_ARGS_SIZE then LaunchResult(-ENOMEM, [], None, false)
    else
      var totsize := TotalSize(ArgsSize(args));
      if !fab.argsAllocOk then LaunchResult(-ENOMEM, [AllocArgs(BlockBase(totsize), totsize)], None, false)
      else
        var pack := PackOps(args, totsize);
        var load := Sweep(LoadCall(path), fab.failingLoads, start, start + size);
        if !load.ok then LaunchResult(-EIO, pack + load.ops, Some(totsize), false)
        else
          var mark := Sweep(MarkCall, {}, start, start + size);
          var kick := Sweep(StartCall, fab.failingStarts, start, start + size);
          LaunchResult(if kick.ok then 0 else -EIO, pack + load.ops + mark.ops + kick.ops, Some(totsize), true)
  }

  /** The outcome of a launch: which error it reports, and for which inputs;
      what the failing launches leave untouched; what argsoffset receives;
      and when the range gets marked. */
  lemma LaunchOutcome(ready: bool, start: int, size: int, args: seq<Bytes>, path: string, fab: Fabric)
    ensures var r := LaunchSpec(ready, start, size, args, path, fab);
      && r.code in {0, -EINVAL, -EBADF, -ENOMEM, -EIO}
      // the range is checked first, then the open flag; neither touches anything
      && (r.code == -EINVAL <==> !RangeOk(start, size))
      && (r.code == -EBADF <==> RangeOk(start, size) && !ready)
      && (r.code in {-EINVAL, -EBADF} ==> r.ops == [] && r.argsOffset.None? && !r.marked)
      // a payload above the ceiling (not one at it) or a refused block allocation
      && (RangeOk(start, size) && ready ==>
            (r.code == -ENOMEM <==> ArgsSize(args) > MAX_ARGS_SIZE || !fab.argsAllocOk))
      && (r.code == -ENOMEM ==> r.argsOffset.None? && !r.marked)
      // over the ceiling nothing is issued; a refused block issued only its allocation
      && (RangeOk(start, size) && ready && ArgsSize(args) > MAX_ARGS_SIZE ==> r.ops == [])
      && (RangeOk(start, size) && ready && ArgsSize(args) <= MAX_ARGS_SIZE && !fab.argsAllocOk ==>
            r.ops == [AllocArgs(BlockBase(TotalSize(ArgsSize(args))), TotalSize(ArgsSize(args)))])
      // argsoffset receives the block size, not the block offset
      && (r.argsOffset.Some? ==> r.argsOffset.value == TotalSize(ArgsSize(args)))
      && (r.marked ==> r.code == 0 || r.code == -EIO)
      && (r.marked <==>
            (&& RangeOk(start, size) && ready && ArgsSize(args) <= MAX_ARGS_SIZE && fab.argsAllocOk
             && forall i :: start <= i < start + size ==> i !in fab.failingLoads))
      && (r.code == 0 <==> (r.marked && forall i :: start <= i < start + size ==> i !in fab.failingStarts))
  {
    SweepOutcome(LoadCall(path), fab.failingLoads, start, start + size);
    SweepOutcome(StartCall, fab.failingStarts, start, start + size);
  }

  /** On a ready device, with the payload within the ceiling, the block
      allocated and no core of the range failing, a launch returns 0 and
      marks its range. */
  lemma CleanLaunch(ready: bool, start: int, size: int, args: seq<Bytes>, path: string, fab: Fabric)
    requires RangeOk(start, size) && ready && ArgsSize(args) <= MAX_ARGS_SIZE && fab.argsAllocOk
    requires forall i :: start <= i < start + size ==> i !in fab.failingLoads && i !in fab.failingStarts
    ensures LaunchSpec(ready, start, size, args, path, fab).code == 0
    ensures LaunchSpec(ready, start, size, args, path, fab).marked
  {
    SweepOutcome(LoadCall(path), fab.failingLoads, start, start + size);
    SweepOutcome(StartCall, fab.failingStarts, start, start + size);
  }

  /** Once packing has succeeded, a launch is the packing calls followed by
      the load sweep and, if every load passed, the mark and start sweeps. */
  lemma PackedLaunch(ready: bool, start: int, size: int, args: seq<Bytes>, path: string, fab: Fabric)
    requires RangeOk(start, size) && ready && ArgsSize(args) <= MAX_ARGS_SIZE && fab.argsAllocOk
    ensures var loads := Sweep(LoadCall(path), fab.failingLoads, start, start + size);
      var marks := Sweep(MarkCall, {}, start, start + size);
      var kicks := Sweep(StartCall, fab.failingStarts, start, start + size);
      LaunchSpec(ready, start, size, args, path, fab)
        == LaunchResult(if loads.ok && kicks.ok then 0 else -EIO,
                  PackOps(args, TotalSize(ArgsSize(args))) + loads.ops + (if loads.ok then marks.ops + kicks.ops else []),
                  Some(TotalSize(ArgsSize(args))),
                  loads.ok)
  {
    var pack := PackOps(args, TotalSize(ArgsSize(args)));
    var loads := Sweep(LoadCall(path), fab.failingLoads, start, start + size);
    var marks := Sweep(MarkCall, {}, start, start + size);
    var kicks := Sweep(StartCall, fab.failingStarts, start, start + size);
    assert pack + loads.ops + marks.ops + kicks.ops == pack + loads.ops + (marks.ops + kicks.ops);
    assert pack + loads.ops == pack + loads.ops + [];
  }

  /** The packing step issues only argument-block calls: no core is touched. */
  lemma PackInPhase(args: seq<Bytes>, totsize: int)
    ensures |PackOps(args, totsize)| == |args| + 3
    ensures AllInPhase(PackOps(args, totsize), 0)
  {
    ArgWritesAt(args, 0);
    var p := PackOps(args, totsize);
    forall i | 0 <= i < |p| ensures Rank(p[i]) == 0 {
      if 2 <= i < |args| + 2 {
        assert p[i] == ArgWrites(args, 0)[i - 2];
      }
    }
  }

  /** Appending operations of phase k after operations of phases up to k keeps the order. */
  lemma AppendPhase(a: seq<Op>, b: seq<Op>, k: nat)
    requires PhaseOrdered(a) && AllInPhase(b, k)
    requires forall i :: 0 <= i < |a| ==> Rank(a[i]) <= k
    ensures PhaseOrdered(a + b)
    ensures forall i :: 0 <= i < |a + b| ==> Rank((a + b)[i]) <= k
  {
    var ab := a + b;
    forall i, j | 0 <= i < j < |ab| ensures Rank(ab[i]) <= Rank(ab[j]) {
      if j < |a| {
        assert ab[i] == a[i] && ab[j] == a[j];
      } else if i < |a| {
        assert ab[i] == a[i] && ab[j] == b[j - |a|];
      } else {
        assert ab[i] == b[i - |a|] && ab[j] == b[j - |a|];
      }
    }
  }

  /** Every launch issues its calls phase by phase: all packing before any
      load, every load before any mark, every mark before any start. */
  lemma LaunchPhaseOrder(ready: bool, start: int, size: int, args: seq<Bytes>, path: string, fab: Fabric)
    ensures PhaseOrdered(LaunchSpec(ready, start, size, args, path, fab).ops)
  {
    var r := LaunchSpec(ready, start, size, args, path, fab);
    if RangeOk(start, size) && ready && ArgsSize(args) <= MAX_ARGS_SIZE && fab.argsAllocOk {
      var totsize := TotalSize(ArgsSize(args));
      var pack := PackOps(args, totsize);
      var load := Sweep(LoadCall(path), fab.failingLoads, start, start + size);
      var mark := Sweep(MarkCall, {}, start, start + size);
      var kick := Sweep(StartCall, fab.failingStarts, start, start + size);
      PackInPhase(args, totsize);
      SweepInPhase(LoadCall(path), fab.failingLoads, start, start + size);
      SweepInPhase(MarkCall, {}, start, start + size);
      SweepInPhase(StartCall, fab.failingStarts, start, start + size);
      AppendPhase([], pack, 0);
      assert [] + pack == pack;
      AppendPhase(pack, load.ops, 1);
      if load.ok {
        AppendPhase(pack + load.ops, mark.ops, 2);
        AppendPhase(pack + load.ops + mark.ops, kick.ops, 3);
      }
    }
  }

  /** A complete sweep placed after `pre` puts the call to core lo + k at
      position |pre| + k. */
  lemma SweepSegment(pre: seq<Op>, c: Call, fails: set<int>, lo: int, hi: int, post: seq<Op>)
    requires lo <= hi && Sweep(c, fails, lo, hi).ok
    ensures |Sweep(c, fails, lo, hi).ops| == hi - lo
    ensures var ops := pre + Sweep(c, fails, lo, hi).ops + post;
      forall k :: |pre| <= k < |pre| + (hi - lo) ==> ops[k] == CallOp(c, lo + k - |pre|)
  {
    SweepShape(c, fails, lo, hi);
    var s := Sweep(c, fails, lo, hi).ops;
    var ops := pre + s + post;
    forall k | |pre| <= k < |pre| + (hi - lo) ensures ops[k] == CallOp(c, lo + k - |pre|) {
      assert ops[k] == s[k - |pre|];
    }
  }

  /** After p packing calls, three complete sweeps put core start + k at
      position p + k of the load sweep, of the mark sweep and of the start sweep. */
  lemma SweepsLayout(pack: seq<Op>, path: string, loadFails: set<int>, startFails: set<int>, start: int, size: nat)
    requires Sweep(LoadCall(path), loadFails, start, start + size).ok
    requires Sweep(StartCall, startFails, start, start + size).ok
    ensures var ops := pack + Sweep(LoadCall(path), loadFails, start, start + size).ops
                            + Sweep(MarkCall, {}, start, start + size).ops
                            + Sweep(StartCall, startFails, start, start + size).ops;
      var p := |pack|;
      && |ops| == p + 3 * size
      && ops[..p] == pack
      && (forall k :: p <= k < p + size ==> ops[k] == Load(path, Row(start + k - p), Col(start + k - p)))
      && (forall k :: p + size <= k < p + 2 * size ==> ops[k] == Mark(start + k - p - size))
      && (forall k :: p + 2 * size <= k < p + 3 * size ==>
            ops[k] == Start(Row(start + k - p - 2 * size), Col(start + k - p - 2 * size)))
  {
    var load := Sweep(LoadCall(path), loadFails, start, start + size).ops;
    var mark := Sweep(MarkCall, {}, start, start + size).ops;
    var kick := Sweep(StartCall, startFails, start, start + size).ops;
    SweepShape(MarkCall, {}, start, start + size);
    var ops := pack + load + mark + kick;
    SweepSegment(pack, LoadCall(path), loadFails, start, start + size, mark + kick);
    assert ops == pack + load + (mark + kick);
    SweepSegment(pack + load, MarkCall, {}, start, start + size, kick);
    SweepSegment(pack + load + mark, StartCall, startFails, start, start + size, []);
    assert ops == pack + load + mark + kick + [];
    assert ops[..|pack|] == pack;
  }

  /** A launch that returns 0 packs the arguments, then loads, marks and
      starts each core of [start, start + size) in increasing order: core
      start + k is the k-th of each sweep. */
  lemma LaunchSucceeded(ready: bool, start: int, size: int, args: seq<Bytes>, path: string, fab: Fabric)
    requires LaunchSpec(ready, start, size, args, path, fab).code == 0
    ensures var r := LaunchSpec(ready, start, size, args, path, fab);
      var p := |args| + 3;
      && |r.ops| == p + 3 * size
      && r.ops[..p] == PackOps(args, TotalSize(ArgsSize(args)))
      && (forall k :: p <= k < p + size ==> r.ops[k] == Load(path, Row(start + k - p), Col(start + k - p)))
      && (forall k :: p + size <= k < p + 2 * size ==> r.ops[k] == Mark(start + k - p - size))
      && (forall k :: p + 2 * size <= k < p + 3 * size ==>
            r.ops[k] == Start(Row(start + k - p - 2 * size), Col(start + k - p - 2 * size)))
  {
    MarkedOps(ready, start, size, args, path, fab);
    SweepsLayout(PackOps(args, TotalSize(ArgsSize(args))), path, fab.failingLoads, fab.failingStarts, start, size);
  }

  /** When a load fails the call returns -EIO having loaded cores start, ...,
      up to and including the first failing one, and having marked and
      started none. */
  lemma LoadFailureMarksNothing(ready: bool, start: int, size: int, args: seq<Bytes>, path: string, fab: Fabric)
    requires var r := LaunchSpec(ready, start, size, args, path, fab);
      r.code == -EIO && !r.marked
    ensures var r := LaunchSpec(ready, start, size, args, path, fab);
      var p := |args| + 3;
      && r.argsOffset == Some(TotalSize(ArgsSize(args)))
      && p < |r.ops| <= p + size
      && r.ops[..p] == PackOps(args, TotalSize(ArgsSize(args)))
      && (forall k :: p <= k < |r.ops| ==> r.ops[k] == Load(path, Row(start + k - p), Col(start + k - p)))
      && start + |r.ops| - p - 1 in fab.failingLoads
      && (forall i :: start <= i < start + |r.ops| - p - 1 ==> i !in fab.failingLoads)
      && (forall k :: 0 <= k < |r.ops| ==> !r.ops[k].Mark? && !r.ops[k].Start?)
  {
    var totsize := TotalSize(ArgsSize(args));
    var pack := PackOps(args, totsize);
    var load := Sweep(LoadCall(path), fab.failingLoads, start, start + size);
    PackInPhase(args, totsize);
    SweepShape(LoadCall(path), fab.failingLoads, start, start + size);
    var ops := pack + load.ops;
    assert LaunchSpec(ready, start, size, args, path, fab).ops == ops;
    assert ops[..|pack|] == pack;
    var p := |args| + 3;
    forall k | 0 <= k < |ops| ensures Rank(ops[k]) <= 1
      ensures p <= k ==> ops[k] == Load(path, Row(start + k - p), Col(start + k - p))
    {
      if k < p { assert ops[k] == pack[k]; } else { assert ops[k] == load.ops[k - p]; }
    }
  }

  /** A launch that marked its range issued the packing calls and all three
      sweeps, the load sweep having succeeded. */
  lemma MarkedOps(ready: bool, start: int, size: int, args: seq<Bytes>, path: string, fab: Fabric)
    requires LaunchSpec(ready, start, size, args, path, fab).marked
    ensures RangeOk(start, size)
    ensures |PackOps(args, TotalSize(ArgsSize(args)))| == |args| + 3
    ensures Sweep(LoadCall(path), fab.failingLoads, start, start + size).ok
    ensures |Sweep(LoadCall(path), fab.failingLoads, start, start + size).ops| == size
    ensures LaunchSpec(ready, start, size, args, path, fab).ops
      == PackOps(args, TotalSize(ArgsSize(args)))
       + Sweep(LoadCall(path), fab.failingLoads, start, start + size).ops
       + Sweep(MarkCall, {}, start, start + size).ops
       + Sweep(StartCall, fab.failingStarts, start, start + size).ops
    ensures LaunchSpec(ready, start, size, args, path, fab).code
      == if Sweep(StartCall, fab.failingStarts, start, start + size).ok then 0 else -EIO
    ensures LaunchSpec(ready, start, size, args, path, fab).ops[..|args| + 3]
      == PackOps(args, TotalSize(ArgsSize(args)))
  {
    var pack := PackOps(args, TotalSize(ArgsSize(args)));
    PackInPhase(args, TotalSize(ArgsSize(args)));
    SweepShape(LoadCall(path), fab.failingLoads, start, start + size);
    var rest := Sweep(LoadCall(path), fab.failingLoads, start, start + size).ops
              + Sweep(MarkCall, {}, start, start + size).ops
              + Sweep(StartCall, fab.failingStarts, start, start + size).ops;
    assert LaunchSpec(ready, start, size, args, path, fab).ops == pack + rest;
    assert (pack + rest)[..|pack|] == pack;
  }

  /** After p packing calls, a complete load sweep, the mark sweep and a
      start sweep that fails: the loads and the marks cover the range in
      order, and the
      starts run in order up to and including the first failing core. */
  lemma StartFailureLayout(pack: seq<Op>, path: string, loadFails: set<int>, startFails: set<int>, start: int, size: nat)
    requires Sweep(LoadCall(path), loadFails, start, start + size).ok
    requires !Sweep(StartCall, startFails, start, start + size).ok
    ensures var ops := pack + Sweep(LoadCall(path), loadFails, start, start + size).ops
                            + Sweep(MarkCall, {}, start, start + size).ops
                            + Sweep(StartCall, startFails, start, start + size).ops;
      var p := |pack| + 2 * size;
      && p < |ops| <= p + size
      && (forall k :: |pack| <= k < |pack| + size ==> ops[k] == Load(path, Row(start + k - |pack|), Col(start + k - |pack|)))
      && (forall k :: |pack| + size <= k < p ==> ops[k] == Mark(start + k - |pack| - size))
      && (forall k :: p <= k < |ops| ==> ops[k] == Start(Row(start + k - p), Col(start + k - p)))
      && start + |ops| - p - 1 in startFails
      && (forall i :: start <= i < start + |ops| - p - 1 ==> i !in startFails)
  {
    var load := Sweep(LoadCall(path), loadFails, start, start + size).ops;
    var mark := Sweep(MarkCall, {}, start, start + size).ops;
    var kick := Sweep(StartCall, startFails, start, start + size).ops;
    SweepOutcome(MarkCall, {}, start, start + size);
    SweepCalls(StartCall, startFails, start, start + size);
    SweepOutcome(StartCall, startFails, start, start + size);
    var ops := pack + load + mark + kick;
    SweepSegment(pack, LoadCall(path), loadFails, start, start + size, mark + kick);
    assert ops == pack + load + (mark + kick);
    SweepSegment(pack + load, MarkCall, {}, start, start + size, kick);
    var p := |pack| + 2 * size;
    forall k | p <= k < |ops| ensures ops[k] == Start(Row(start + k - p), Col(start + k - p)) {
      assert ops[k] == kick[k - p];
    }
  }

  /** When a start fails the call returns -EIO with every core of the range
      loaded and marked, in order, and cores started up to and including the first
      failing one. */
  lemma StartFailureAfterMarking(ready: bool, start: int, size: int, args: seq<Bytes>, path: string, fab: Fabric)
    requires var r := LaunchSpec(ready, start, size, args, path, fab);
      r.code == -EIO && r.marked
    ensures var r := LaunchSpec(ready, start, size, args, path, fab);
      var p := |args| + 3 + 2 * size;
      && p < |r.ops| <= p + size
      && r.ops[..|args| + 3] == PackOps(args, TotalSize(ArgsSize(args)))
      && (forall k :: |args| + 3 <= k < |args| + 3 + size ==>
            r.ops[k] == Load(path, Row(start + k - |args| - 3), Col(start + k - |args| - 3)))
      && (forall k :: |args| + 3 + size <= k < p ==> r.ops[k] == Mark(start + k - |args| - 3 - size))
      && (forall k :: p <= k < |r.ops| ==> r.ops[k] == Start(Row(start + k - p), Col(start + k - p)))
      && start + |r.ops| - p - 1 in fab.failingStarts
      && (forall i :: start <= i < start + |r.ops| - p - 1 ==> i !in fab.failingStarts)
  {
    MarkedOps(ready, start, size, args, path, fab);
    StartFailureLayout(PackOps(args, TotalSize(ArgsSize(args))), path, fab.failingLoads, fab.failingStarts, start, size);
  }

  /** Operations laid out as a launch that succeeded: p packing calls, then
      the load, mark and start of each core of [start, start + size) in turn. */
  ghost predicate LaunchShape(ops: seq<Op>, p: nat, start: int, size: nat, path: string)
  {
    && |ops| == p + 3 * size
    && AllInPhase(ops[..p], 0)
    && (forall k :: p <= k < p + size ==> ops[k] == Load(path, Row(start + k - p), Col(start + k - p)))
    && (forall k :: p + size <= k < p + 2 * size ==> ops[k] == Mark(start + k - p - size))
    && (forall k :: p + 2 * size <= k < p + 3 * size ==>
          ops[k] == Start(Row(start + k - p - 2 * size), Col(start + k - p - 2 * size)))
  }

  /** Every core of [start, start + size) is loaded, marked and started, no
      other core is, and no core is loaded twice. */
  ghost predicate AddressesExactly(ops: seq<Op>, start: int, size: int, path: string)
  {
    && (forall i :: start <= i < start + size ==>
          Load(path, Row(i), Col(i)) in ops && Mark(i) in ops && Start(Row(i), Col(i)) in ops)
    && (forall k :: 0 <= k < |ops| && (ops[k].Load? || ops[k].Start?) ==>
          && 0 <= ops[k].row < ROWS && 0 <= ops[k].col < COLS
          && start <= CoreAt(ops[k].row, ops[k].col) < start + size)
    && (forall k :: 0 <= k < |ops| && ops[k].Mark? ==> start <= ops[k].core < start + size)
    && (forall k1, k2 :: 0 <= k1 < k2 < |ops| && ops[k1].Load? && ops[k2].Load? ==>
          (ops[k1].row, ops[k1].col) != (ops[k2].row, ops[k2].col))
  }

  lemma ShapeCoversRange(ops: seq<Op>, p: nat, start: int, size: nat, path: string)
    requires LaunchShape(ops, p, start, size, path)
    ensures forall i :: start <= i < start + size ==>
      Load(path, Row(i), Col(i)) in ops && Mark(i) in ops && Start(Row(i), Col(i)) in ops
  {
    forall i | start <= i < start + size
      ensures Load(path, Row(i), Col(i)) in ops && Mark(i) in ops && Start(Row(i), Col(i)) in ops
    {
      assert ops[p + (i - start)] == Load(path, Row(i), Col(i));
      assert ops[p + size + (i - start)] == Mark(i);
      assert ops[p + 2 * size + (i - start)] == Start(Row(i), Col(i));
    }
  }

  lemma ShapeStaysInRange(ops: seq<Op>, p: nat, start: int, size: nat, path: string, k: int)
    requires 0 <= start && start + size <= CORES
    requires LaunchShape(ops, p, start, size, path)
    requires 0 <= k < |ops|
    ensures ops[k].Load? || ops[k].Start? ==>
      && 0 <= ops[k].row < ROWS && 0 <= ops[k].col < COLS
      && start <= CoreAt(ops[k].row, ops[k].col) < start + size
    ensures ops[k].Mark? ==> start <= ops[k].core < start + size
    ensures ops[k].Load? ==> p <= k < p + size
  {
    if k < p {
      assert ops[k] == ops[..p][k];
    } else if k < p + size {
      IndexToCoordinates(start + k - p);
    } else if k < p + 2 * size {
    } else {
      IndexToCoordinates(start + k - p - 2 * size);
    }
  }

  lemma ShapeAddressesExactly(ops: seq<Op>, p: nat, start: int, size: nat, path: string)
    requires 0 <= start && start + size <= CORES
    requires LaunchShape(ops, p, start, size, path)
    ensures AddressesExactly(ops, start, size, path)
  {
    ShapeCoversRange(ops, p, start, size, path);
    forall k | 0 <= k < |ops|
      ensures ops[k].Load? || ops[k].Start? ==>
        && 0 <= ops[k].row < ROWS && 0 <= ops[k].col < COLS
        && start <= CoreAt(ops[k].row, ops[k].col) < start + size
      ensures ops[k].Mark? ==> start <= ops[k].core < start + size
    {
      ShapeStaysInRange(ops, p, start, size, path, k);
    }
    forall k1, k2 | 0 <= k1 < k2 < |ops| && ops[k1].Load? && ops[k2].Load?
      ensures (ops[k1].row, ops[k1].col) != (ops[k2].row, ops[k2].col)
    {
      ShapeLoadsDistinct(ops, p, start, size, path, k1, k2);
    }
  }

  lemma ShapeLoadsDistinct(ops: seq<Op>, p: nat, start: int, size: nat, path: string, k1: int, k2: int)
    requires 0 <= start && start + size <= CORES
    requires LaunchShape(ops, p, start, size, path)
    requires 0 <= k1 < k2 < |ops| && ops[k1].Load? && ops[k2].Load?
    ensures (ops[k1].row, ops[k1].col) != (ops[k2].row, ops[k2].col)
  {
    ShapeStaysInRange(ops, p, start, size, path, k1);
    ShapeStaysInRange(ops, p, start, size, path, k2);
    var i1, i2 := start + k1 - p, start + k2 - p;
    assert ops[k1] == Load(path, Row(i1), Col(i1));
    assert ops[k2] == Load(path, Row(i2), Col(i2));
    if Row(i1) == Row(i2) && Col(i1) == Col(i2) {
      CoordinatesInjective(i1, i2);
    }
  }

  /** A successful launch loads, marks and starts every core of
      [start, start + size) and no other, and loads each of them once. */
  lemma LaunchAddressesExactlyRange(ready: bool, start: int, size: int, args: seq<Bytes>, path: string, fab: Fabric)
    requires LaunchSpec(ready, start, size, args, path, fab).code == 0
    ensures AddressesExactly(LaunchSpec(ready, start, size, args, path, fab).ops, start, size, path)
  {
    var r := LaunchSpec(ready, start, size, args, path, fab);
    LaunchSucceeded(ready, start, size, args, path, fab);
    PackInPhase(args, TotalSize(ArgsSize(args)));
    ShapeAddressesExactly(r.ops, |args| + 3, start, size, path);
  }
}
