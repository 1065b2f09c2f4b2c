/** Two client runs showing what callers of the loop and the launcher can conclude from their contracts. */
module Scenarios {
  import opened ErrorCodes
  import Signals
  import PollLoop
  import WorkerPool

  /**
   * idle_limit 3, one probe that always would block, terminate raised from outside
   * after six passes: the loop has slept twice and returns success.
   */
  method IdleProbeUntilTerminate()
  {
    var g := new Signals.Globals();
    var pass := [WouldBlock];
    var passes := [pass, pass, pass, pass, pass, pass];
    var sleeps := [PollLoop.Slept, PollLoop.Slept, PollLoop.Slept, PollLoop.Interrupted, PollLoop.Slept, PollLoop.Slept];
    PollLoop.IdleSleepPeriod(3, 0, passes, sleeps);
    var ret, n, slept := PollLoop.Loop(g, 3, passes, sleeps);
    assert ret == NoError && n == 6 && slept == 2;
    assert g.terminate;
  }

  /** Four workers, the one with id 2 failing with a domain error: that error is returned and terminate is raised. */
  method OneWorkerFails()
  {
    var g := new Signals.Globals();
    var e := Err(Other(7));
    var launches := [WorkerPool.Runs(NoError), WorkerPool.Runs(NoError), WorkerPool.Runs(e), WorkerPool.Runs(NoError)];
    assert WorkerPool.FirstCreateFailure(launches) == 4;
    var ret, attempts, joins := WorkerPool.Spawn(g, 16, launches);
    assert joins == 4 && launches[..joins] == launches;
    WorkerPool.LastFailureIsLast(WorkerPool.Statuses(launches), 2);
    assert ret == e;
    assert g.terminate;
  }
}
