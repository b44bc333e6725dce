/** `GitBackgroundThread`: a flag, `isRunning`, and the handle of the thread
    that polls `pasivestatus` while the flag is set. Threads are not modelled
    beyond their handle: a ghost counter records how many were spawned. */
module Poller {
  import opened Wrappers
  import opened Snapshots
  import opened SnapshotStore
  import opened Diff
  import opened Git

  /** A `threading.Thread` handle: whether it was made a daemon and started. */
  class Thread {
    var daemon: bool
    var started: bool

    constructor ()
      ensures !daemon && !started
    {
      daemon, started := false, false;
    }

    method Start()
      modifies this`started
      ensures started
    {
      started := true;
    }
  }

  class GitBackgroundThread {
    const intervalMilliseconds: int
    var isRunning: bool
    var backgroundThread: Thread?
    ghost var spawned: nat

    /** A handle exists once a thread was spawned, and while the flag is set
        it is a started daemon thread. */
    ghost predicate Valid()
      reads this, backgroundThread
    {
      && (backgroundThread == null <==> spawned == 0)
      && (isRunning ==> backgroundThread != null && backgroundThread.daemon && backgroundThread.started)
    }

    constructor (intervalMilliseconds: int)
      ensures Valid()
      ensures this.intervalMilliseconds == intervalMilliseconds
      ensures !isRunning && backgroundThread == null && spawned == 0
    {
      this.intervalMilliseconds := intervalMilliseconds;
      isRunning := false;
      backgroundThread := null;
      spawned := 0;
    }

    /** `start`: a no-op while running; otherwise set the flag and spawn and
        start exactly one new daemon thread. */
    method Start()
      requires Valid()
      modifies this
      ensures Valid() && isRunning
      ensures old(isRunning) ==> backgroundThread == old(backgroundThread) && spawned == old(spawned)
      ensures !old(isRunning) ==> fresh(backgroundThread) && spawned == old(spawned) + 1
    {
      if isRunning {
        return;
      }
      isRunning := true;
      var thread := new Thread();
      backgroundThread := thread;
      thread.daemon := true;
      thread.Start();
      spawned := spawned + 1;
    }

    /** `stop`: clear the flag, whatever its value; the handle stays. */
    method Stop()
      requires Valid()
      modifies this`isRunning
      ensures Valid() && !isRunning
    {
      isRunning := false;
    }

    /** One pass of `backgroundTask`'s loop: once the flag is clear the task
        ends and reports nothing more; while it is set the task reports what
        `pasivestatus` prints for the snapshot file and the current snapshot. */
    method BackgroundStep(persisted: Option<string>, current: Snapshot) returns (report: Option<seq<Line>>)
      ensures report.None? <==> !isRunning
      ensures report.Some? ==> report.value == Printed(Compare(LoadPrevious(persisted), current, false))
    {
      if !isRunning {
        return None;
      }
      var lines := Report(LoadPrevious(persisted), current, false);
      report := Some(lines);
    }
  }

  /** Starting twice in a row spawns one thread. */
  method StartTwiceSpawnsOnce(poller: GitBackgroundThread)
    requires poller.Valid() && !poller.isRunning
    modifies poller
    ensures poller.Valid() && poller.isRunning
    ensures poller.spawned == old(poller.spawned) + 1
  {
    poller.Start();
    poller.Start();
  }

  /** Stopping twice leaves the poller stopped, as stopping once does. */
  method StopIsIdempotent(poller: GitBackgroundThread)
    requires poller.Valid()
    modifies poller
    ensures poller.Valid() && !poller.isRunning
    ensures poller.backgroundThread == old(poller.backgroundThread) && poller.spawned == old(poller.spawned)
  {
    poller.Stop();
    poller.Stop();
  }

  /** After `stop`, the next pass of the background loop ends the task
      without a report. */
  method StopEndsReports(poller: GitBackgroundThread, persisted: Option<string>, current: Snapshot)
    returns (report: Option<seq<Line>>)
    requires poller.Valid()
    modifies poller
    ensures report == None
  {
    poller.Stop();
    report := poller.BackgroundStep(persisted, current);
  }

  /** Right after a commit, with no file changed, a pass of the running
      background loop reports every file Edited, in order. */
  method PollAfterCommitReportsAllEdited(poller: GitBackgroundThread, cur: Snapshot)
    returns (report: Option<seq<Line>>)
    requires poller.isRunning
    requires DistinctKeys(cur)
    requires forall i :: 0 <= i < |cur| ==> Storable(cur[i])
    ensures report.Some? && |report.value| == |cur|
    ensures forall i :: 0 <= i < |cur| ==> report.value[i] == Line(Basename(cur[i].path), Edited)
  {
    report := poller.BackgroundStep(Some(Serialize(cur)), cur);
    CommitThenStatusReportsAllEdited(cur, false);
  }
}
