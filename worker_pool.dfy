/**
 * tapp_spawn: starts one worker thread per id, joins them in id order, and
 * aggregates their statuses.  Thread creation and the workers' statuses are inputs.
 */
module WorkerPool {
  import opened MachineInts
  import opened ErrorCodes
  import Signals

  /** What happens at one thread id: pthread_create fails, or the thread runs and its worker returns a status. */
  datatype Launch = CreateFails | Runs(status: Status)

  /** Index of the first id whose thread cannot be created, or |ls| when all can. */
  function FirstCreateFailure(ls: seq<Launch>): (k: nat)
    ensures k <= |ls|
    ensures k < |ls| ==> ls[k].CreateFails?
    ensures forall i :: 0 <= i < k ==> ls[i].Runs?
  {
    if ls == [] then 0
    else if ls[0].CreateFails? then 0
    else 1 + FirstCreateFailure(ls[1..])
  }

  /** The workers' statuses, in id order, when every thread was created. */
  function Statuses(ls: seq<Launch>): (ss: seq<Status>)
    requires forall i :: 0 <= i < |ls| ==> ls[i].Runs?
    ensures |ss| == |ls| && forall i :: 0 <= i < |ls| ==> ss[i] == ls[i].status
  {
    seq(|ls|, i requires 0 <= i < |ls| => ls[i].status)
  }

  /** Index of the last status that is not NoError, or -1 when all are NoError. */
  function LastFailureIndex(ss: seq<Status>): (k: int)
    ensures -1 <= k < |ss|
    ensures k >= 0 ==> ss[k] != NoError
    ensures forall j :: k < j < |ss| ==> ss[j] == NoError
    decreases |ss|
  {
    if ss == [] then -1
    else if ss[|ss| - 1] != NoError then |ss| - 1
    else LastFailureIndex(ss[..|ss| - 1])
  }

  /** The status the join scan keeps: that of the last failing thread in id order, or NoError. */
  function LastFailure(ss: seq<Status>): (r: Status)
    ensures r == NoError <==> forall i :: 0 <= i < |ss| ==> ss[i] == NoError
  {
    var k := LastFailureIndex(ss);
    if k < 0 then NoError else ss[k]
  }

  /** A failing thread whose successors all succeed decides the result. */
  lemma LastFailureIsLast(ss: seq<Status>, k: nat)
    requires k < |ss| && ss[k] != NoError
    requires forall j :: k < j < |ss| ==> ss[j] == NoError
    ensures LastFailureIndex(ss) == k && LastFailure(ss) == ss[k]
  {
  }

  /**
   * The creation loop of tapp_spawn: tid_vec_num (a uint16_t) is bumped before each
   * pthread_create, and the loop stops at the first creation that fails.
   */
  method CreateThreads(launches: seq<Launch>) returns (attempts: nat, tidVecNum: uint16, failed: bool)
    ensures failed <==> FirstCreateFailure(launches) < |launches|
    ensures attempts == if failed then FirstCreateFailure(launches) + 1 else |launches|
    ensures tidVecNum == attempts % UINT16_LIMIT
  {
    attempts, tidVecNum, failed := 0, 0, false;
    while attempts < |launches|
      invariant attempts <= |launches|
      invariant tidVecNum == attempts % UINT16_LIMIT
      invariant forall j :: 0 <= j < attempts ==> launches[j].Runs?
    {
      tidVecNum := Inc16(tidVecNum);
      attempts := attempts + 1;
      if launches[attempts - 1].CreateFails? {
        failed := true;
        break;
      }
    }
  }

  /** tapp_spawn with TAPP_THREADS = `capacity` and threads = |launches|. */
  method Spawn(g: Signals.Globals, capacity: nat, launches: seq<Launch>)
    returns (ret: Status, attempts: nat, joins: nat)
    requires |launches| < UINT32_LIMIT
    modifies g
    ensures g.user1 == old(g.user1) && g.user2 == old(g.user2)
    // too many threads: fail fast, create and join nothing, leave terminate alone
    ensures |launches| >= capacity ==>
      ret == Err(OutOfMemory) && attempts == 0 && joins == 0 && g.terminate == old(g.terminate)
    // creation fails at id k: nothing above k is attempted, terminate is raised, the
    // k + 1 slots counted by the uint16_t tid_vec_num (the failed one too) are joined
    // and their statuses discarded
    ensures |launches| < capacity && FirstCreateFailure(launches) < |launches| ==>
      attempts == FirstCreateFailure(launches) + 1 &&
      joins == (FirstCreateFailure(launches) + 1) % UINT16_LIMIT &&
      ret == Err(Errno) && g.terminate
    // every thread created: the tid_vec_num threads joined decide the result, which is the
    // last failing status; terminate is raised exactly when some joined thread failed
    ensures |launches| < capacity && FirstCreateFailure(launches) == |launches| ==>
      attempts == |launches| &&
      joins == |launches| % UINT16_LIMIT &&
      ret == LastFailure(Statuses(launches)[..joins]) &&
      g.terminate == (old(g.terminate) || exists i :: 0 <= i < joins && launches[i].status != NoError)
  {
    ret := NoError;
    attempts, joins := 0, 0;
    if |launches| >= capacity {
      ret := Err(OutOfMemory);
      return;
    }

    var tidVecNum, createFailed;
    attempts, tidVecNum, createFailed := CreateThreads(launches);
    if createFailed {
      // cancel_thread: raise terminate and join every counted slot, discarding the results
      ret := Err(Errno);
      g.terminate := true;
      while joins < tidVecNum
        invariant joins <= tidVecNum
      {
        joins := joins + 1;
      }
      return;
    }

    // join in id order; each failure raises terminate and overwrites the result
    ghost var ss := Statuses(launches);
    while joins < tidVecNum
      invariant joins <= tidVecNum
      invariant ret == LastFailure(ss[..joins])
      invariant g.terminate == (old(g.terminate) || exists i :: 0 <= i < joins && launches[i].status != NoError)
      invariant g.user1 == old(g.user1) && g.user2 == old(g.user2)
    {
      var r := launches[joins].status;
      assert ss[..joins + 1][..joins] == ss[..joins];
      if r != NoError {
        g.terminate := true;
        ret := r;
      }
      joins := joins + 1;
    }
  }
}
