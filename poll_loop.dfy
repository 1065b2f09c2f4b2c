/**
 * tapp_loop: repeatedly invokes a list of non-blocking probes until the terminate
 * flag is observed, sleeping after a run of idle passes.  The probes' results, the
 * moment terminate is raised from outside and the outcome of each sleep are inputs.
 */
module PollLoop {
  import opened MachineInts
  import opened ErrorCodes
  import Signals

  // ---------------------------------------------------------------------------
  // One pass over the probes
  // ---------------------------------------------------------------------------

  /** Index of the first probe that returned a hard error, or |rs| when none did. */
  function FirstHard(rs: seq<Status>): (k: nat)
    ensures k <= |rs|
    ensures k < |rs| ==> rs[k].Err?
    ensures forall i :: 0 <= i < k ==> !rs[i].Err?
  {
    if rs == [] then 0
    else if rs[0].Err? then 0
    else 1 + FirstHard(rs[1..])
  }

  /** How many probes a pass invokes: up to and including the first hard error. */
  function Invoked(rs: seq<Status>): nat
  {
    if FirstHard(rs) < |rs| then FirstHard(rs) + 1 else |rs|
  }

  /**
   * The status a pass folds its probes' results into: the first hard error if
   * there is one, otherwise NoError if some probe made progress, else WouldBlock.
   */
  function PassOutcome(rs: seq<Status>): (r: Status)
    // a hard error is only ever one that the first failing probe returned
    ensures r.Err? <==> FirstHard(rs) < |rs|
    ensures r.Err? ==> r == rs[FirstHard(rs)]
  {
    var k := FirstHard(rs);
    if k < |rs| then rs[k] else if NoError in rs then NoError else WouldBlock
  }

  /** A pass fails exactly when a probe fails, makes progress exactly when some probe does and none fails, and would block exactly when every probe would. */
  lemma PassOutcomeCases(rs: seq<Status>)
    ensures PassOutcome(rs).Err? <==> exists i :: 0 <= i < |rs| && rs[i].Err?
    ensures PassOutcome(rs) == NoError <==> (forall i :: 0 <= i < |rs| ==> !rs[i].Err?) && NoError in rs
    ensures PassOutcome(rs) == WouldBlock <==> forall i :: 0 <= i < |rs| ==> rs[i] == WouldBlock
  {
  }

  /** The first hard error wins, even after earlier progress, and ends the pass. */
  lemma FirstErrorWins(rs: seq<Status>, k: nat)
    requires k < |rs| && rs[k].Err?
    requires forall i :: 0 <= i < k ==> !rs[i].Err?
    ensures FirstHard(rs) == k
    ensures PassOutcome(rs) == rs[k] && Invoked(rs) == k + 1
  {
  }

  /** Probes after the first hard error are never invoked, so their results do not matter. */
  lemma LaterProbesIrrelevant(rs: seq<Status>, rest: seq<Status>)
    requires FirstHard(rs) < |rs|
    ensures PassOutcome(rs[..Invoked(rs)] + rest) == PassOutcome(rs)
    ensures Invoked(rs[..Invoked(rs)] + rest) == Invoked(rs)
  {
    var k := FirstHard(rs);
    var s := rs[..k + 1] + rest;
    assert s[k] == rs[k];
    assert forall i :: 0 <= i < k ==> s[i] == rs[i];
    FirstErrorWins(s, k);
  }

  /** The inner for(;;) of tapp_loop: calls the probes in order and folds their statuses. */
  method Pass(rs: seq<Status>) returns (procRet: Status, invoked: nat)
    ensures invoked == Invoked(rs)
    ensures procRet == PassOutcome(rs)
  {
    procRet := WouldBlock;
    invoked := 0;
    while invoked < |rs|
      invariant invoked <= |rs|
      invariant forall i :: 0 <= i < invoked ==> !rs[i].Err?
      invariant procRet == if NoError in rs[..invoked] then NoError else WouldBlock
    {
      var r := rs[invoked];
      assert rs[..invoked + 1] == rs[..invoked] + [r];
      invoked := invoked + 1;
      if r == NoError {
        procRet := NoError;
      } else if r != WouldBlock {
        procRet := r;
        FirstErrorWins(rs, invoked - 1);
        break;
      }
    }
    assert invoked == |rs| ==> rs[..invoked] == rs;
  }

  // ---------------------------------------------------------------------------
  // The idle counter and the sleep
  // ---------------------------------------------------------------------------

  /** The result of usleep: success, interrupted by a signal (EINTR), or any other failure. */
  datatype SleepOutcome = Slept | Interrupted | Failed

  /** What the switch after a pass decides: go on with a new idle count, or leave the loop. */
  datatype StepResult = Continue(idle: uint32, slept: bool) | Stop(ret: Status)

  /** The switch on a pass's status in tapp_loop, with idle_count a uint32_t. */
  function Step(limit: nat, idle: uint32, procRet: Status, sleep: SleepOutcome): (r: StepResult)
    // a hard error ends the loop with that very error
    ensures procRet.Err? ==> r == Stop(procRet)
    // progress resets the idle counter
    ensures procRet == NoError ==> r == Continue(0, false)
    // an idle pass counts up; reaching the limit sleeps, and a sleep that succeeds
    // or is interrupted by a signal resets the counter
    ensures procRet == WouldBlock && Inc32(idle) < limit ==> r == Continue(Inc32(idle), false)
    ensures procRet == WouldBlock && Inc32(idle) >= limit && sleep != Failed ==> r == Continue(0, true)
    // any other sleep failure ends the loop with E_TLIBC_ERRNO
    ensures procRet == WouldBlock && Inc32(idle) >= limit && sleep == Failed ==> r == Stop(Err(Errno))
    // the loop never stops with a non-error, and the counter stays below the limit
    ensures r.Stop? ==> r.ret.Err?
    ensures r.Continue? ==> r.idle < limit || r.idle == 0
  {
    match procRet
    case NoError => Continue(0, false)
    case WouldBlock =>
      var c := Inc32(idle);
      if c >= limit then
        if sleep == Failed then Stop(Err(Errno)) else Continue(0, true)
      else
        Continue(c, false)
    case Err(_) => Stop(procRet)
  }

  // ---------------------------------------------------------------------------
  // The whole loop
  // ---------------------------------------------------------------------------

  /** How the loop ended: its return value, how many passes it ran and how many times it slept. */
  datatype Exit = Exit(ret: Status, passes: nat, sleeps: nat)

  /**
   * The loop started with idle count `idle`, over the passes `ps` that run before
   * terminate is raised from outside; `ss[i]` is the outcome of a sleep in pass i.
   */
  function Run(limit: nat, idle: uint32, ps: seq<seq<Status>>, ss: seq<SleepOutcome>): (e: Exit)
    requires |ps| == |ss|
    decreases ps
  {
    if ps == [] then Exit(NoError, 0, 0)
    else
      match Step(limit, idle, PassOutcome(ps[0]), ss[0])
      case Stop(ret) => Exit(ret, 1, 0)
      case Continue(c, slept) =>
        var e := Run(limit, c, ps[1..], ss[1..]);
        Exit(e.ret, e.passes + 1, e.sleeps + if slept then 1 else 0)
  }

  /** How the loop can end. */
  lemma {:induction false} RunExit(limit: nat, idle: uint32, ps: seq<seq<Status>>, ss: seq<SleepOutcome>)
    requires |ps| == |ss|
    ensures var e := Run(limit, idle, ps, ss);
      && e.passes <= |ps| && e.sleeps <= e.passes
      // WOULD_BLOCK is absorbed: the loop returns success or a hard error
      && (e.ret == NoError || e.ret.Err?)
      // success only when terminate was observed after the last pass
      && (e.ret == NoError ==> e.passes == |ps|)
      // otherwise the last pass run either reported a hard error, which is returned,
      // or was idle and its sleep failed
      && (e.ret != NoError ==>
            0 < e.passes &&
            ((PassOutcome(ps[e.passes - 1]).Err? && e.ret == PassOutcome(ps[e.passes - 1])) ||
             (PassOutcome(ps[e.passes - 1]) == WouldBlock && ss[e.passes - 1] == Failed && e.ret == Err(Errno))))
      // no pass before the last one reported a hard error, and none at all on success
      && (forall i :: 0 <= i < e.passes - 1 ==> !PassOutcome(ps[i]).Err?)
      && (e.ret == NoError ==> forall i :: 0 <= i < |ps| ==> !PassOutcome(ps[i]).Err?)
    decreases ps
  {
    if ps != [] {
      var s := Step(limit, idle, PassOutcome(ps[0]), ss[0]);
      if s.Continue? {
        RunExit(limit, s.idle, ps[1..], ss[1..]);
        assert forall i :: 1 <= i < |ps| ==> ps[i] == ps[1..][i - 1];
      }
    }
  }

  /** One pass of the loop, seen from pass i on. */
  lemma RunFrom(limit: nat, idle: uint32, ps: seq<seq<Status>>, ss: seq<SleepOutcome>, i: nat)
    requires |ps| == |ss| && i < |ps|
    ensures Run(limit, idle, ps[i..], ss[i..]) ==
      match Step(limit, idle, PassOutcome(ps[i]), ss[i])
      case Stop(r) => Exit(r, 1, 0)
      case Continue(c, slept) =>
        var e := Run(limit, c, ps[i + 1..], ss[i + 1..]);
        Exit(e.ret, e.passes + 1, e.sleeps + if slept then 1 else 0)
  {
    assert ps[i..][1..] == ps[i + 1..];
    assert ss[i..][1..] == ss[i + 1..];
  }

  /** tapp_loop.  `passes` are the probes' results for the passes run before terminate is raised. */
  method Loop(g: Signals.Globals, idleLimit: nat, passes: seq<seq<Status>>, sleeps: seq<SleepOutcome>)
    returns (ret: Status, passesRun: nat, slept: nat)
    requires |passes| == |sleeps|
    modifies g
    // every exit path leaves terminate raised, and the user flags alone
    ensures g.terminate && g.user1 == old(g.user1) && g.user2 == old(g.user2)
    // terminate already raised: no pass, success
    ensures old(g.terminate) ==> ret == NoError && passesRun == 0 && slept == 0
    ensures !old(g.terminate) ==> Exit(ret, passesRun, slept) == Run(idleLimit, 0, passes, sleeps)
  {
    ret := NoError;
    passesRun, slept := 0, 0;
    var idleCount: uint32 := 0;
    while !g.terminate && passesRun < |passes|
      invariant passesRun <= |passes|
      invariant idleCount < idleLimit || idleCount == 0
      invariant old(g.terminate) ==> passesRun == 0 && slept == 0
      invariant g.terminate == old(g.terminate) && g.user1 == old(g.user1) && g.user2 == old(g.user2)
      invariant !g.terminate ==>
        (var e := Run(idleLimit, idleCount, passes[passesRun..], sleeps[passesRun..]);
         Run(idleLimit, 0, passes, sleeps) == Exit(e.ret, passesRun + e.passes, slept + e.sleeps))
    {
      var procRet, _ := Pass(passes[passesRun]);
      RunFrom(idleLimit, idleCount, passes, sleeps, passesRun);
      var s := Step(idleLimit, idleCount, procRet, sleeps[passesRun]);
      passesRun := passesRun + 1;
      match s
      case Stop(r) =>
        ret := r;
        break;
      case Continue(c, didSleep) =>
        idleCount := c;
        if didSleep {
          slept := slept + 1;
        }
    }
    g.terminate := true;
  }

  // ---------------------------------------------------------------------------
  // Properties of the idle backoff
  // ---------------------------------------------------------------------------

  /** The number of idle passes between two sleeps: idle_limit, but at least one. */
  function Period(limit: nat): (p: nat)
    ensures p > 0
  {
    if limit == 0 then 1 else limit
  }

  /**
   * With every pass idle and no sleep failing, the loop sleeps exactly once every
   * max(idle_limit, 1) passes (for a limit the uint32_t counter can reach).
   */
  lemma {:induction false} IdleSleepPeriod(limit: nat, idle: uint32, ps: seq<seq<Status>>, ss: seq<SleepOutcome>)
    requires |ps| == |ss|
    requires limit < UINT32_LIMIT && idle < Period(limit)
    requires forall i :: 0 <= i < |ps| ==> PassOutcome(ps[i]) == WouldBlock
    requires forall i :: 0 <= i < |ss| ==> ss[i] != Failed
    ensures Run(limit, idle, ps, ss) == Exit(NoError, |ps|, (idle + |ps|) / Period(limit))
    decreases ps
  {
    if ps != [] {
      var n := |ps| - 1;
      var L := Period(limit);
      assert PassOutcome(ps[0]) == WouldBlock;
      assert forall i :: 0 <= i < n ==> ps[1..][i] == ps[i + 1];
      assert forall i :: 0 <= i < n ==> ss[1..][i] == ss[i + 1];
      assert Inc32(idle) == idle + 1;
      if idle + 1 == L {
        assert Step(limit, idle, WouldBlock, ss[0]) == Continue(0, true);
        IdleSleepPeriod(limit, 0, ps[1..], ss[1..]);
        DivStep(n, L);
        assert idle + |ps| == n + L;
      } else {
        assert Step(limit, idle, WouldBlock, ss[0]) == Continue(idle + 1, false);
        IdleSleepPeriod(limit, idle + 1, ps[1..], ss[1..]);
        assert idle + |ps| == (idle + 1) + n;
      }
    } else {
      DivUnique(idle, Period(limit), 0, idle);
    }
  }

  /**
   * An idle_limit of 2^32 or more is never reached: the uint32_t counter wraps to 0
   * first, so with every pass idle the loop never sleeps.
   */
  lemma {:induction false} WrappedCounterNeverSleeps(limit: nat, idle: uint32, ps: seq<seq<Status>>, ss: seq<SleepOutcome>)
    requires |ps| == |ss|
    requires limit >= UINT32_LIMIT
    requires forall i :: 0 <= i < |ps| ==> PassOutcome(ps[i]) == WouldBlock
    ensures Run(limit, idle, ps, ss) == Exit(NoError, |ps|, 0)
    decreases ps
  {
    if ps != [] {
      assert PassOutcome(ps[0]) == WouldBlock;
      assert forall i :: 0 <= i < |ps| - 1 ==> ps[1..][i] == ps[i + 1];
      WrappedCounterNeverSleeps(limit, Inc32(idle), ps[1..], ss[1..]);
    }
  }

  /**
   * When no sleep before pass k fails, the loop returns the hard error of the first pass that
   * reports one, after exactly that many passes.
   */
  lemma {:induction false} FirstFailingPassEndsLoop(limit: nat, idle: uint32, ps: seq<seq<Status>>, ss: seq<SleepOutcome>, k: nat)
    requires |ps| == |ss| && k < |ps|
    requires PassOutcome(ps[k]).Err?
    requires forall i :: 0 <= i < k ==> !PassOutcome(ps[i]).Err?
    requires forall i :: 0 <= i < k ==> ss[i] != Failed
    ensures Run(limit, idle, ps, ss).ret == PassOutcome(ps[k])
    ensures Run(limit, idle, ps, ss).passes == k + 1
    decreases k
  {
    if k > 0 {
      assert !PassOutcome(ps[0]).Err? && ss[0] != Failed;
      assert forall i :: 0 <= i < |ps| - 1 ==> ps[1..][i] == ps[i + 1];
      assert forall i :: 0 <= i < k - 1 ==> ss[1..][i] == ss[i + 1];
      var s := Step(limit, idle, PassOutcome(ps[0]), ss[0]);
      FirstFailingPassEndsLoop(limit, s.idle, ps[1..], ss[1..], k - 1);
    }
  }
}
