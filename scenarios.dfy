/** Clients of the device model, as a caller of the device layer would see
    them: bringing the device up, a full-grid launch, the end of a wait, and
    the argument ceiling. */
module Scenarios {
  import opened Platform
  import opened Hal
  import opened ArgsPacking
  import opened Launch
  import opened Poll
  import opened EpiphanyDevice

  /** A fabric on which every call succeeds. */
  predicate Healthy(fab: Fabric)
  {
    && fab.initOk && fab.resetOk && fab.mallocOk && fab.openOk && fab.ctrlAllocOk && fab.argsAllocOk
    && forall i :: 0 <= i < CORES ==> i !in fab.failingLoads && i !in fab.failingStarts
  }

  /** Initialise (twice: the second call is a no-op) and open the whole
      grid for a team. */
  method BringUp(fab: Fabric) returns (dev: Device, team: Team)
    requires Healthy(fab)
    ensures fresh(dev) && fresh(dev.status)
    ensures dev.Valid() && dev.initialized && dev.isOpen && team.dev == dev
  {
    dev := new Device();
    var r := dev.Init(fab);
    assert r == Pass && dev.isOpen;
    r := dev.Init(fab);
    team := new Team();
    r := dev.Open(team, 0, CORES);
    assert r == Pass;
  }

  /** Launch on all 16 cores of a freshly opened device, without arguments:
      the launch succeeds and every status word reads SCHEDULED. */
  method FullGridLaunch(fab: Fabric) returns (code: int, words: seq<int>)
    requires Healthy(fab)
    ensures code == 0
    ensures words == seq(CORES, i => STATUS_SCHEDULED)
  {
    var dev, team := BringUp(fab);
    var first, count, path, args := 0, CORES, "e_task.elf", [];
    assert ArgsSize(args) == 0;
    CleanLaunch(true, first, count, args, path, fab);
    code := dev.Run(path, first, count, args, fab);
    words := dev.status[..];
  }

  /** Once the cores have finished, a snapshot in which all 16 status words
      read DONE ends the wait at the first poll. */
  method AllDoneEndsWait() returns (waited: WaitResult)
    ensures waited == Returned(0, 1)
  {
    var done := seq(CORES, i => STATUS_DONE);
    assert !NeedWait([done][0]);
    waited := WaitForCompletion([done]);
  }

  /** A payload exactly at the ceiling launches; one byte more fails with
      -ENOMEM before any fabric call of the launch is made. */
  method CeilingBoundary(fab: Fabric) returns (atCeiling: int, overCeiling: int, overOps: seq<Op>)
    requires Healthy(fab)
    ensures atCeiling == 0
    ensures overCeiling == -ENOMEM
    ensures overOps == []
  {
    var dev, team := BringUp(fab);
    var first, count, path := 0, CORES, "e_task.elf";
    var full: Bytes := seq(MAX_ARGS_SIZE, _ => 0);
    var atArgs, overArgs := [full], [full, [1]];
    assert ArgsSize(atArgs) == SumTo(atArgs, 0) + |full| == MAX_ARGS_SIZE;
    assert ArgsSize(overArgs) == SumTo(overArgs, 1) + 1 == MAX_ARGS_SIZE + 1;
    CleanLaunch(true, first, count, atArgs, path, fab);
    atCeiling := dev.Run(path, first, count, atArgs, fab);
    var before := dev.trace;
    overCeiling := dev.Run(path, first, count, overArgs, fab);
    overOps := dev.trace[|before|..];
  }
}
