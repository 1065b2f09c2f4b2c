/** The process-wide shutdown flags and the signal handler that sets them. */
module Signals {
  // Linux signal numbers; the model only relies on their being distinct.
  const SIGINT: int := 2
  const SIGUSR1: int := 10
  const SIGUSR2: int := 12
  const SIGTERM: int := 15

  /** The values of g_tapp_sigterm, g_tapp_sigusr1 and g_tapp_sigusr2. */
  datatype Flags = Flags(terminate: bool, user1: bool, user2: bool)

  /** What one delivery of `sig` to on_signal does to the flags. */
  function Deliver(f: Flags, sig: int): (g: Flags)
    // SIGINT and SIGTERM raise terminate and nothing else
    ensures sig == SIGINT || sig == SIGTERM ==> g == f.(terminate := true)
    // SIGUSR1 raises user1 only, SIGUSR2 raises user2 only
    ensures sig == SIGUSR1 ==> g == f.(user1 := true)
    ensures sig == SIGUSR2 ==> g == f.(user2 := true)
    // any other signal leaves the flags alone
    ensures sig !in {SIGINT, SIGTERM, SIGUSR1, SIGUSR2} ==> g == f
    // no flag is ever cleared
    ensures (f.terminate ==> g.terminate) && (f.user1 ==> g.user1) && (f.user2 ==> g.user2)
  {
    if sig == SIGINT || sig == SIGTERM then f.(terminate := true)
    else if sig == SIGUSR1 then f.(user1 := true)
    else if sig == SIGUSR2 then f.(user2 := true)
    else f
  }

  /** The flags after a run of signal deliveries, in arrival order. */
  function DeliverAll(f: Flags, sigs: seq<int>): Flags
    decreases sigs
  {
    if sigs == [] then f else DeliverAll(Deliver(f, sigs[0]), sigs[1..])
  }

  /** Each flag ends up set exactly when it was set already or one of its signals arrived. */
  lemma {:induction false} DeliverAllLatches(f: Flags, sigs: seq<int>)
    ensures DeliverAll(f, sigs) ==
      Flags(f.terminate || SIGINT in sigs || SIGTERM in sigs,
            f.user1 || SIGUSR1 in sigs,
            f.user2 || SIGUSR2 in sigs)
    decreases sigs
  {
    if sigs != [] {
      DeliverAllLatches(Deliver(f, sigs[0]), sigs[1..]);
      assert sigs == [sigs[0]] + sigs[1..];
    }
  }

  /** Neither the order nor the repetition of arrivals matters, only which signals arrived. */
  lemma DeliverAllOrderIrrelevant(f: Flags, a: seq<int>, b: seq<int>)
    requires forall x :: x in a <==> x in b
    ensures DeliverAll(f, a) == DeliverAll(f, b)
  {
    DeliverAllLatches(f, a);
    DeliverAllLatches(f, b);
  }

  /** The three global flags, which the handler, the loop and the launcher write in place. */
  class Globals {
    var terminate: bool  // g_tapp_sigterm
    var user1: bool      // g_tapp_sigusr1
    var user2: bool      // g_tapp_sigusr2

    constructor ()
      ensures Snapshot() == Flags(false, false, false)
    {
      terminate, user1, user2 := false, false, false;
    }

    function Snapshot(): Flags
      reads this
    {
      Flags(terminate, user1, user2)
    }

    /** on_signal: the handler registered for SIGINT, SIGTERM, SIGUSR1 and SIGUSR2. */
    method OnSignal(sig: int)
      modifies this
      ensures Snapshot() == Deliver(old(Snapshot()), sig)
    {
      if sig == SIGINT || sig == SIGTERM {
        terminate := true;
      } else if sig == SIGUSR1 {
        user1 := true;
      } else if sig == SIGUSR2 {
        user2 := true;
      }
    }
  }
}
