# Per-user time budget of a freemium processing service

A video processing service gives every user 10 seconds of free processing
time. A request runs the user's process and, once per elapsed second, charges
one second to the user's record under the user's mutex. When a charge takes a
non-premium user's accumulated total strictly past 10 seconds, the request
returns `false` (the process is "killed"). When the process finishes first,
the request returns `true`. Premium users are never killed. The total is kept
in the user record, so it accumulates over all of that user's requests.

The model has three modules:

- `Ledger` (`ledger.dfy`): the `User` record with its `int64` counter, the
  user's mutex as a `held` flag (`Guarded`), and `ChargeAndCheck`, the body of
  the tick branch: lock, `TimeUsed++`, decide, unlock.
- `Supervisor` (`supervisor.dfy`): one request. The goroutine, the `done`
  channel and the per-iteration ticker become a sequence of events, `Tick`
  (one second elapsed) or `Done` (the process finished). `HandleRequest`
  consumes events and returns the request's status, the user record
  afterwards and the number of events consumed. `Running` means the events
  ran out before the loop returned. `HandleRequestLoop` is the same loop
  written as a `while` with early returns, proved equal to it. `Predicted`
  is an independent closed form of the outcome.
- `Session` (`session.dfy`): several requests of the same user, one after
  another, with the user record handed from each request to the next.

The limit of 10 seconds and the one-second tick are constants of the
program, not parameters, and the model keeps them as constants
(`Ledger.FreeSeconds`).

The counter is a Go `int64`, and `TimeUsed++` wraps from the largest `int64`
to the smallest. The model writes this out (`Ledger.WrapInt64`,
`Ledger.Increment`). Properties about the amount charged assume the counter
does not wrap during the requests considered. `Supervisor.WrapAroundSkipsKill`
shows what happens when it does wrap: the counter becomes negative, so that
tick does not kill.

## Model

| member | source | states |
|---|---|---|
| Ledger.Increment | 3.2-limit-service-time-per-user/main.go:24-44 | `TimeUsed++` on an `int64`: one more below the maximum, wraps to the minimum at the maximum |
| Ledger.Lock | 3.2-limit-service-time-per-user/main.go:43 | the tick handler takes the user's mutex, which must be free, because a sequential caller would block forever on a held mutex |
| Ledger.Unlock | 3.2-limit-service-time-per-user/main.go:46-49 | releasing the mutex requires that it is held, because Go aborts on unlocking an unlocked mutex; the record is unchanged |
| Ledger.Charge | 3.2-limit-service-time-per-user/main.go:43-44 | the counter is charged only while the mutex is held; the new counter is `TimeUsed++` on an `int64`: one more below the largest `int64`, the smallest `int64` at the largest; `ID` and `IsPremium` are unchanged |
| Ledger.ChargeAndCheck | 3.2-limit-service-time-per-user/main.go:42-49 | one tick: the mutex is released on both the kill path and the continue path; `ID` and `IsPremium` are unchanged; the counter is incremented with `int64` wrap-around; it kills exactly when the user is not premium and the new total is strictly over 10, so a tick reaching 10 continues, one reaching 11 kills, and the tick that wraps the largest `int64` does not kill |
| Supervisor.KillTick | 3.2-limit-service-time-per-user/main.go:44-45 | the number of ticks after which a non-premium user at counter `t` is killed is the least positive `k` with `t + k > 10` |
| Supervisor.HandleRequest | 3.2-limit-service-time-per-user/main.go:30-52 | the request loop: it ends only on a `Done` (returning `true`) or on a killing `Tick` (returning `false`), and every event before the deciding one is a tick; `false` implies a non-premium user whose total is over 10; a premium user never gets `false`; `ID` and `IsPremium` are unchanged |
| Supervisor.HandleRequestLoop | 3.2-limit-service-time-per-user/main.go:38-51 | the `for`/`select` loop with its two `return`s computes exactly what `HandleRequest` computes |
| Supervisor.HandleRequestMatchesPrediction | 3.2-limit-service-time-per-user/main.go:30-52 | without counter wrap-around, the loop's outcome equals the closed form: killed after `KillTick` ticks if that many ticks come before the first `Done`, else `true` on the first `Done` charged one second per earlier tick, else still running |
| Supervisor.ChargedPerTick | 3.2-limit-service-time-per-user/main.go:40-44 | the counter after a request equals the counter before plus the number of ticks consumed, so it never decreases; a `Done` charges nothing |
| Supervisor.DoneEndsRequest | 3.2-limit-service-time-per-user/main.go:40-41 | a `Done` before any tick returns `true` after one event and leaves the user record unchanged |
| Supervisor.PremiumRunsUntilDone | 3.2-limit-service-time-per-user/main.go:38-51 | for a premium user the request returns `true` right after the first `Done` and keeps running while there is none, however large the counter grows |
| Supervisor.KilledWhenBudgetRunsOut | 3.2-limit-service-time-per-user/main.go:42-47 | a non-premium user at `t0 < MaxInt64` whose process never finishes is killed after exactly `11 - t0` ticks when `t0 <= 10`, and on the first tick when `t0 > 10`, with the counter at `t0` plus that many ticks |
| Supervisor.RequestChargeBound | 3.2-limit-service-time-per-user/main.go:42-47 | one request leaves a non-premium user below the largest `int64` at most one second past the larger of its starting counter and 10, never below its starting counter, and only a killed request takes that extra second |
| Supervisor.WrapAroundSkipsKill | 3.2-limit-service-time-per-user/main.go:24-45 | a non-premium user whose counter is the largest `int64` is not killed by the next tick: the counter wraps to the smallest `int64` |
| Session.HandleAll | 3.2-limit-service-time-per-user/main.go:8-26 | requests handled in sequence give one run per request; `ID` and `IsPremium` carry over unchanged; no request of a premium user returns `false` |
| Session.TimeAccumulates | 3.2-limit-service-time-per-user/main.go:8-44 | the budget is per user: after a sequence of requests the counter equals the starting value plus every tick consumed by any of them |
| Session.OverBudgetKilledOnFirstTick | 3.2-limit-service-time-per-user/main.go:8-45 | once a non-premium user is past 10 seconds, every later request is decided by its first event: a tick returns `false` and a `Done` returns `true`, and each such request is charged at most one second |
| Session.SessionChargeBound | 3.2-limit-service-time-per-user/main.go:8-47 | a non-premium user ends any sequence of requests no lower than it started and at most one second per request past the larger of its starting counter and 10 |

## Left out

- The goroutine that runs the process, the `done` channel and the `select`
  are replaced by the event sequence. Returning `false` does not stop the
  process: its goroutine then blocks forever sending on the unbuffered
  `done` channel. That is a resource effect of real execution and is not
  modelled.
- `time.Tick(time.Second)` is created again on every loop iteration, so a
  tick means one second since the loop last entered the `select`. Wall-clock
  time is not modelled; a tick is an opaque event.
- Requests running at the same time, for the same user or for different
  users, are not modelled. The mutex is modelled only as a flag that is taken
  and released along each path of one tick. Its mutual exclusion between
  goroutines is not modelled.
- `main` and `RunMockServer` are a test harness. The mock server is not part
  of this model.
- The producer/consumer exercise, the graceful SIGINT exercise and the web
  crawler are separate programs and not part of this model.
- Supervisor.ChargedPerTick: stated only when the counter cannot wrap around
  during the request, because a wrap makes the counter decrease;
  `Supervisor.WrapAroundSkipsKill` covers the wrap.
- Supervisor.HandleRequestMatchesPrediction: stated only when the counter
  cannot wrap around during the request, for the same reason.
- Supervisor.KilledWhenBudgetRunsOut: requires a starting counter below the
  largest `int64`, because at the largest value the next tick wraps and does
  not kill.
- Supervisor.RequestChargeBound: requires a starting counter below the
  largest `int64`, the only case in which a request of a non-premium user can
  wrap the counter (it is killed before any later wrap).
- Session.TimeAccumulates: stated only when the counter cannot wrap around
  during the requests.
- Session.OverBudgetKilledOnFirstTick: stated only when the counter cannot
  wrap around during the requests.
- Session.SessionChargeBound: requires the bound itself,
  `max(TimeUsed, 10)` plus the number of requests, to be at most the largest
  `int64`, so that no request in the sequence can wrap the counter.
