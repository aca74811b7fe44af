/** Completion polling of dev_wait: read the whole status array, and keep
    waiting while some core is SCHEDULED or RUNNING. */
module Poll {
  import opened Platform

  /** A status word that keeps the host waiting (the SCHEDULED case falls
      through to the RUNNING case). */
  predicate Busy(w: int)
  {
    w == STATUS_SCHEDULED || w == STATUS_RUNNING
  }

  /** One snapshot of the status array still requires waiting. */
  predicate NeedWait(ctrl: seq<int>)
  {
    exists i :: 0 <= i < |ctrl| && Busy(ctrl[i])
  }

  /** The inner loop of one poll: look at all 16 status words; `break` leaves
      only the switch, so no word is skipped. */
  method ScanStatus(ctrl: seq<int>) returns (needWait: bool)
    requires |ctrl| == CORES
    ensures needWait <==> NeedWait(ctrl)
  {
    needWait := false;
    for i := 0 to CORES
      invariant needWait <==> exists j :: 0 <= j < i && Busy(ctrl[j])
    {
      if ctrl[i] == STATUS_SCHEDULED || ctrl[i] == STATUS_RUNNING {
        needWait := true;
      }
    }
  }

  /** How a wait ends over a finite run of polls: it returned 0 after reading
      snapshot number `polls` (counting from 1), or every poll so far asked to
      keep waiting. */
  datatype WaitResult = Returned(code: int, polls: nat) | StillWaiting

  /** dev_wait, given the successive snapshots the fabric returns for the
      status array: polls them in order until one has no busy core. */
  method WaitForCompletion(snapshots: seq<seq<int>>) returns (w: WaitResult)
    requires forall k :: 0 <= k < |snapshots| ==> |snapshots[k]| == CORES
    ensures w.Returned? ==>
      && w.code == 0
      && 1 <= w.polls <= |snapshots|
      && !NeedWait(snapshots[w.polls - 1])
      && forall k :: 0 <= k < w.polls - 1 ==> NeedWait(snapshots[k])
    ensures w.StillWaiting? ==> forall k :: 0 <= k < |snapshots| ==> NeedWait(snapshots[k])
  {
    var k := 0;
    while k < |snapshots|
      invariant 0 <= k <= |snapshots|
      invariant forall j :: 0 <= j < k ==> NeedWait(snapshots[j])
    {
      var needWait := ScanStatus(snapshots[k]);
      if !needWait {
        return Returned(0, k + 1);
      }
      k := k + 1;
    }
    return StillWaiting;
  }

  /** Waiting observes the whole device, not the launched range: for any
      range short of the full grid, a snapshot in which every core of the
      range is DONE can still keep the host waiting. */
  lemma WaitIsDeviceScoped(start: int, size: int)
    requires 0 <= start && 0 < size && start + size <= CORES && size < CORES
    ensures exists ctrl: seq<int> ::
      && |ctrl| == CORES
      && (forall i :: start <= i < start + size ==> ctrl[i] == STATUS_DONE)
      && NeedWait(ctrl)
  {
    var ctrl := seq(CORES, i => if start <= i < start + size then STATUS_DONE else STATUS_RUNNING);
    var outside := if start > 0 then 0 else start + size;
    assert Busy(ctrl[outside]);
  }
}
