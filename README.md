# tapp runtime core in Dafny

A model of the sequential control logic of the `tapp` service skeleton (`tapp/source/tapp.c`).
It covers three parts:

- **Signal flags.** `on_signal` latches the process-wide flags `g_tapp_sigterm`, `g_tapp_sigusr1` and `g_tapp_sigusr2`.
- **The polling loop `tapp_loop`.** Each pass calls the probes in order and folds their statuses into one pass status. After each pass the loop updates a `uint32_t` idle counter and sleeps when the counter reaches `idle_limit`. It leaves the loop on terminate, on a hard error or on a failed sleep. Every way out raises terminate.
- **The worker launcher `tapp_spawn`.** It checks the thread count against `TAPP_THREADS`, creates threads in id order and counts the `uint16_t` slots in `tid_vec_num`. It then joins the threads and keeps the status of the last failing worker, raising terminate on any failure.

The outside world becomes input sequences:

- For each pass, the statuses the probes would return.
- For each pass, the outcome of its sleep if it sleeps: slept, interrupted by a signal (EINTR), or any other failure.
- For each thread id, whether `pthread_create` fails there or the worker's status.

The global flags are an object of class `Signals.Globals`. The loop and the launcher receive it and modify it in place.

The loop runs over the passes that happen before terminate is raised from outside. A signal or a sibling thread may be what raises it. After the last pass given, the check at the loop head sees terminate raised.

Files, one module each:

- `machine_ints.dfy` holds the fixed-width counters and the division facts.
- `error_codes.dfy` holds the status codes.
- `signals.dfy` holds `on_signal` and the flags.
- `poll_loop.dfy` holds `tapp_loop`.
- `worker_pool.dfy` holds `tapp_spawn`.
- `scenarios.dfy` holds two client runs that use only the contracts.

Integer widths are modelled where they change behaviour:

- `idle_count` is a `uint32_t` compared with a `size_t` limit. When `idle_limit` is 2^32 or more, the counter wraps to 0 before it can reach the limit, so an idle loop never sleeps (`WrappedCounterNeverSleeps`). The sleep period is therefore stated for smaller limits (`IdleSleepPeriod`).
- `tid_vec_num` is a `uint16_t`. The number of joins is the slot count modulo 2^16.

Two behaviours of the code a reader may not expect:

- When `pthread_create` fails at id k, the code has already counted slot k (tapp/source/tapp.c:311-314). The cancel path therefore joins k + 1 slots, the failed one included, not only the k threads actually started (tapp/source/tapp.c:335-339).
- An idle loop sleeps every `max(idle_limit, 1)` passes, because the test is `idle_count >= idle_limit` (tapp/source/tapp.c:256-257). With `idle_limit == 0` the loop sleeps after every idle pass.

## Model

| member | source | states |
|---|---|---|
| MachineInts.Inc32 | tapp/source/tapp.c:256 | `++idle_count` on the uint32_t counter: one more, or 0 after 2^32 - 1 |
| MachineInts.Inc16 | tapp/source/tapp.c:311 | `++tid_vec_num` on the uint16_t counter: one more, or 0 after 2^16 - 1 |
| Signals.Deliver | tapp/source/tapp.c:156-171 | SIGINT and SIGTERM set only terminate, SIGUSR1 only user1, SIGUSR2 only user2; any other signal changes nothing; no flag is ever cleared |
| Signals.DeliverAllLatches | tapp/source/tapp.c:151-171 | after any run of signals, each flag is set exactly when it was set before or one of its signals arrived |
| Signals.DeliverAllOrderIrrelevant | tapp/source/tapp.c:156-171 | runs of signals with the same members leave the same flags, whatever their order or repetition |
| Signals.Globals.constructor | tapp/source/tapp.c:151-153 | the three flags start false |
| Signals.Globals.OnSignal | tapp/source/tapp.c:156-171 | the handler updates the flags in place exactly as `Deliver` says |
| PollLoop.FirstHard | tapp/source/tapp.c:236-245 | the index of the first hard error among the probes' results: every earlier probe returned NOERROR or WOULD_BLOCK |
| PollLoop.PassOutcome | tapp/source/tapp.c:222-246 | the status a pass folds its probes into is a hard error exactly when some probe returns one, and then it is the error of the first failing probe; otherwise NOERROR if some probe does, otherwise WOULD_BLOCK; the three cases are proved as if-and-only-ifs in `PassOutcomeCases` |
| PollLoop.PassOutcomeCases | tapp/source/tapp.c:222-246 | a pass fails exactly when some probe returns a hard error; it is NOERROR exactly when no probe fails and some probe returns NOERROR; it is WOULD_BLOCK exactly when every probe would block |
| PollLoop.FirstErrorWins | tapp/source/tapp.c:237-245 | the first hard error is the pass status even after earlier NOERRORs, and the pass invokes exactly the probes up to it |
| PollLoop.LaterProbesIrrelevant | tapp/source/tapp.c:241-245 | whatever the probes after the first hard error would return, the pass status and the number of probes invoked stay the same |
| PollLoop.Pass | tapp/source/tapp.c:222-247 | the inner loop invokes `Invoked(rs)` probes and folds them into the status that `PassOutcome` defines |
| PollLoop.Step | tapp/source/tapp.c:249-271 | a hard error ends the loop with that error; NOERROR resets the idle count; WOULD_BLOCK increments it, and on reaching the limit sleeps and resets it; EINTR counts as a completed sleep; any other sleep failure ends the loop with E_TLIBC_ERRNO; afterwards the count is below the limit, or 0 |
| PollLoop.Run | tapp/source/tapp.c:220-272 | the whole loop over the passes run before terminate is raised: each pass is folded by `PassOutcome` and decided by `Step`; what it returns and how it ends is proved in `RunExit`, `IdleSleepPeriod`, `WrappedCounterNeverSleeps` and `FirstFailingPassEndsLoop` |
| PollLoop.RunExit | tapp/source/tapp.c:212-277 | the loop returns NOERROR or a hard error, never WOULD_BLOCK; NOERROR only when terminate stopped it after the last pass; otherwise its last pass returned that hard error, or was idle and its sleep failed with E_TLIBC_ERRNO; no earlier pass reported a hard error |
| PollLoop.Loop | tapp/source/tapp.c:212-277 | the loop leaves terminate raised on every path and the user flags unchanged; with terminate already raised it runs no pass and succeeds; otherwise its result, its pass count and its sleep count are those of `Run` |
| PollLoop.IdleSleepPeriod | tapp/source/tapp.c:254-266 | with every pass idle and no sleep failing, and idle_limit < 2^32, the loop sleeps exactly (idle + passes) / max(idle_limit, 1) times and returns NOERROR |
| PollLoop.WrappedCounterNeverSleeps | tapp/source/tapp.c:254-258 | with idle_limit >= 2^32 the uint32_t counter never reaches it, so an idle loop never sleeps |
| PollLoop.FirstFailingPassEndsLoop | tapp/source/tapp.c:236-270 | when no sleep before pass k fails, the loop returns the very hard error of the first failing pass, after exactly that many passes |
| WorkerPool.FirstCreateFailure | tapp/source/tapp.c:309-319 | the first id whose thread cannot be created; every thread before it is created |
| WorkerPool.CreateThreads | tapp/source/tapp.c:309-319 | creation stops at the first failure and attempts nothing above it; tid_vec_num counts every attempt, including the failed one, modulo 2^16 |
| WorkerPool.LastFailureIndex | tapp/source/tapp.c:321-330 | the index of the last status that is not NOERROR; every later status is NOERROR |
| WorkerPool.LastFailure | tapp/source/tapp.c:321-332 | the join scan's result is NOERROR exactly when every joined worker returned NOERROR |
| WorkerPool.LastFailureIsLast | tapp/source/tapp.c:321-332 | a failing worker followed only by successful ones decides the result: the last failure wins |
| WorkerPool.Spawn | tapp/source/tapp.c:295-342 | threads >= TAPP_THREADS: E_TLIBC_OUT_OF_MEMORY, nothing created or joined, terminate unchanged; creation failing at k: k + 1 attempts, (k + 1) mod 2^16 joins, E_TLIBC_ERRNO, terminate raised; all created: the last failing status among the joined threads, with terminate raised exactly when some joined thread failed |

## Left out

- `tapp_load_config`, `version`, `usage`, `help` (command-line parsing, reading the XML configuration, printing and `exit(1)`) are glue around libraries that are not part of this model.
- `tapp_sigaction` only registers the handler with the operating system and ignores SIGPIPE. Any failure there gives E_TLIBC_ERRNO. It is a set of foreign calls and is not modelled.
- Real threads, concurrent execution, the blocking of `pthread_join`, and the unsynchronised access to the global flags are not modelled. Thread outcomes and the moment terminate is raised from outside are inputs.
- The `worker` trampoline and the `void*` casts of worker return codes are not modelled. A worker's status is taken as it is.
- `usleep` timing is not modelled. A sleep is just its outcome.
- The `va_list` walk over the NULL-terminated probe list is modelled as a sequence of the statuses the probes return.
- `TAPP_THREADS` is defined in `tapp.h`, which is not part of this model. It is the parameter `capacity` of `Spawn`.
- In the creation-failure path the code calls `pthread_join` on the slot whose creation failed, and that slot holds no valid thread handle. The model only counts that join and does not model what such a join does.
- A probe that itself raises terminate during a pass is covered by ending the input passes at that pass. The model passes no flag object to probes.
- PollLoop.Loop: the bound on the idle count after every pass is a loop invariant of the method and a postcondition of `Step`, not a postcondition of `Loop`, because the counter is local to `tapp_loop`.
