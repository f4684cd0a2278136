/** One request of a user: the loop that waits for either the process to
    finish or the next second to elapse, charging the user's ledger on every
    elapsed second and killing the request once the free time is used up.
    The goroutine and the ticker are replaced by a sequence of events. */
module Supervisor {
  import opened Ledger

  /** What the request loop observes on one iteration: the process signalled
      completion, or one second elapsed. */
  datatype Event = Tick | Done

  /** `Returned(ok)` is the value the request returns; `Running` means the
      events ran out before the loop took either exit. */
  datatype Status = Running | Returned(ok: bool)

  /** The state of a request after a run of events: its status, the user
      record, and how many events it consumed. */
  datatype Run = Run(status: Status, user: User, consumed: nat)

  /** A run seen from `k` events earlier in the stream. */
  function After(k: nat, r: Run): Run
  {
    r.(consumed := r.consumed + k)
  }

  /** Number of ticks among `events`. */
  function TickCount(events: seq<Event>): (n: nat)
    ensures n <= |events|
    ensures n == |events| <==> Done !in events
  {
    if |events| == 0 then 0
    else (if events[0] == Tick then 1 else 0) + TickCount(events[1..])
  }

  /** Position of the first `Done`, or `|events|` when there is none. */
  function FirstDone(events: seq<Event>): (d: nat)
    ensures d <= |events|
    ensures forall i :: 0 <= i < d && i < |events| ==> events[i] == Tick
    ensures d < |events| ==> events[d] == Done
  {
    if |events| == 0 then 0
    else if events[0] == Done then 0
    else
      var d' := FirstDone(events[1..]);
      assert forall i | 0 <= i <= d' && i < |events| :: events[i] == Tick by {
        forall i | 0 <= i <= d' && i < |events| ensures events[i] == Tick {
          if i > 0 {
            assert events[i] == events[1..][i - 1];
          }
        }
      }
      1 + d'
  }

  /** For a non-premium user whose counter stands at `t`, the number of ticks
      after which a process that never completes is killed. */
  function KillTick(t: int): (k: nat)
    ensures k >= 1
    ensures t + k > FreeSeconds
    ensures k == 1 || t + k - 1 <= FreeSeconds
  {
    if t > FreeSeconds then 1 else FreeSeconds + 1 - t
  }

  /** The request loop, one event at a time. */
  function HandleRequest(u: User, events: seq<Event>): (r: Run)
    ensures r.consumed <= |events|
    ensures r.status.Running? ==> r.consumed == |events|
    ensures forall i :: 0 <= i < |events| && (i + 1 < r.consumed || r.status.Running?) ==> events[i] == Tick
    ensures r.status.Returned? ==> 0 < r.consumed
    ensures r.status == Returned(true) ==> 0 < r.consumed <= |events| && events[r.consumed - 1] == Done
    ensures r.status == Returned(false) ==> 0 < r.consumed <= |events| && events[r.consumed - 1] == Tick
    ensures r.user.id == u.id && r.user.isPremium == u.isPremium
    ensures r.status == Returned(false) ==> !u.isPremium && r.user.timeUsed > FreeSeconds
    ensures u.isPremium ==> r.status != Returned(false)
    decreases |events|
  {
    if |events| == 0 then Run(Running, u, 0)
    else match events[0]
      case Done => Run(Returned(true), u, 1)
      case Tick =>
        var t := ChargeAndCheck(Guarded(u, false));
        if t.kill then Run(Returned(false), t.state.user, 1)
        else
          After(1, HandleRequest(t.state.user, events[1..]))
  }

  /** The same loop written as the program writes it: iterate until the
      process completes or the tick handler decides to kill. */
  method HandleRequestLoop(u: User, events: seq<Event>) returns (status: Status, user: User, consumed: nat)
    ensures Run(status, user, consumed) == HandleRequest(u, events)
  {
    user := u;
    consumed := 0;
    while consumed < |events|
      invariant consumed <= |events|
      invariant HandleRequest(u, events) == After(consumed, HandleRequest(user, events[consumed..]))
    {
      assert events[consumed..][1..] == events[consumed + 1..];
      match events[consumed]
      case Done =>
        return Returned(true), user, consumed + 1;
      case Tick =>
        var t := ChargeAndCheck(Guarded(user, false));
        consumed := consumed + 1;
        user := t.state.user;
        if t.kill {
          return Returned(false), user, consumed;
        }
    }
    status := Running;
  }

  /** The outcome of a request computed directly from the user and the
      events, without running the loop. It is exact as long as the 64-bit
      counter cannot wrap around during the request. */
  function Predicted(u: User, events: seq<Event>): Run
    requires u.timeUsed <= MaxInt64 - |events|
  {
    var d := FirstDone(events);
    if !u.isPremium && KillTick(u.timeUsed) <= d then
      Run(Returned(false), u.(timeUsed := u.timeUsed + KillTick(u.timeUsed)), KillTick(u.timeUsed))
    else if d < |events| then
      Run(Returned(true), u.(timeUsed := u.timeUsed + d), d + 1)
    else
      Run(Running, u.(timeUsed := u.timeUsed + |events|), |events|)
  }

  /** The loop agrees with the closed-form prediction on every input whose
      ticks cannot overflow the counter. */
  lemma {:induction false} HandleRequestMatchesPrediction(u: User, events: seq<Event>)
    requires u.timeUsed <= MaxInt64 - |events|
    ensures HandleRequest(u, events) == Predicted(u, events)
    decreases |events|
  {
    if |events| > 0 && events[0] == Tick {
      var t := ChargeAndCheck(Guarded(u, false));
      if !t.kill {
        HandleRequestMatchesPrediction(t.state.user, events[1..]);
        assert FirstDone(events) == 1 + FirstDone(events[1..]);
      }
    }
  }

  /** A request charges exactly one second per tick it consumed: the final
      counter is the initial one plus the ticks consumed, so it never
      decreases. A `Done` is never charged. */
  lemma {:induction false} ChargedPerTick(u: User, events: seq<Event>)
    requires u.timeUsed <= MaxInt64 - |events|
    ensures HandleRequest(u, events).user.timeUsed
              == u.timeUsed + TickCount(events[..HandleRequest(u, events).consumed])
    ensures HandleRequest(u, events).user.timeUsed >= u.timeUsed
    decreases |events|
  {
    if |events| > 0 {
      var r := HandleRequest(u, events);
      match events[0]
      case Done =>
        assert events[..1] == [Done];
        assert TickCount(events[..1]) == TickCount([Done]);
      case Tick =>
        var t := ChargeAndCheck(Guarded(u, false));
        if t.kill {
          assert events[..1] == [Tick];
          assert TickCount(events[..1]) == 1 + TickCount([]);
        } else {
          var rest := HandleRequest(t.state.user, events[1..]);
          assert t.state.user.timeUsed == u.timeUsed + 1;
          assert r == After(1, rest);
          ChargedPerTick(t.state.user, events[1..]);
          var prefix := events[..r.consumed];
          assert prefix == [Tick] + events[1..][..rest.consumed];
          assert prefix[0] == Tick && prefix[1..] == events[1..][..rest.consumed];
          assert TickCount(prefix) == 1 + TickCount(events[1..][..rest.consumed]);
        }
    }
  }

  /** A `Done` that arrives before any tick ends the request with `true` and
      leaves the user record as it was. */
  lemma DoneEndsRequest(u: User, events: seq<Event>)
    requires |events| > 0 && events[0] == Done
    ensures HandleRequest(u, events) == Run(Returned(true), u, 1)
  {
  }

  /** A premium user's request never returns `false`, whatever the counter
      reaches, even across a wrap-around: it runs until the first `Done`, and
      keeps running while there is none. This follows from the contract of
      `HandleRequest`. */
  lemma PremiumRunsUntilDone(u: User, events: seq<Event>)
    requires u.isPremium
    ensures var r := HandleRequest(u, events);
            var d := FirstDone(events);
            if d < |events| then r.status == Returned(true) && r.consumed == d + 1
            else r.status == Running && r.consumed == |events|
  {
  }

  /** A non-premium user whose process never completes is killed on exactly
      the tick that takes the counter past the free time: after
      `FreeSeconds + 1 - t0` ticks when it starts at `t0 <= FreeSeconds`, and
      on the first tick otherwise. */
  lemma {:induction false} KilledWhenBudgetRunsOut(u: User, events: seq<Event>)
    requires !u.isPremium && u.timeUsed < MaxInt64 && Done !in events
    requires u.timeUsed <= FreeSeconds ==> FreeSeconds + 1 - u.timeUsed <= |events|
    requires u.timeUsed > FreeSeconds ==> 1 <= |events|
    ensures u.timeUsed <= FreeSeconds ==>
              HandleRequest(u, events)
                == Run(Returned(false), u.(timeUsed := FreeSeconds + 1), FreeSeconds + 1 - u.timeUsed)
    ensures u.timeUsed > FreeSeconds ==>
              HandleRequest(u, events) == Run(Returned(false), u.(timeUsed := u.timeUsed + 1), 1)
    decreases |events|
  {
    assert events[0] == Tick;
    var t := ChargeAndCheck(Guarded(u, false));
    if !t.kill {
      KilledWhenBudgetRunsOut(t.state.user, events[1..]);
    }
  }

  /** Per request, a non-premium user is charged at most one second beyond
      the larger of its starting counter and the free time, and only a killed
      request gets that extra second. */
  lemma {:induction false} RequestChargeBound(u: User, events: seq<Event>)
    requires !u.isPremium && u.timeUsed < MaxInt64
    ensures HandleRequest(u, events).status == Returned(false) ==>
              HandleRequest(u, events).user.timeUsed == Max(u.timeUsed, FreeSeconds) + 1
    ensures HandleRequest(u, events).status != Returned(false) ==>
              u.timeUsed <= HandleRequest(u, events).user.timeUsed <= Max(u.timeUsed, FreeSeconds)
    decreases |events|
  {
    if |events| > 0 && events[0] == Tick {
      var t := ChargeAndCheck(Guarded(u, false));
      if !t.kill {
        RequestChargeBound(t.state.user, events[1..]);
      }
    }
  }

  function Max(a: int, b: int): int
  {
    if a < b then b else a
  }

  /** The counter is an `int64`: a non-premium user whose counter sits at the
      largest `int64` wraps to the smallest one on the next tick, which is not
      past the free time, so that tick does not kill the request. */
  lemma WrapAroundSkipsKill(u: User)
    requires !u.isPremium && u.timeUsed == MaxInt64
    ensures HandleRequest(u, [Tick]) == Run(Running, u.(timeUsed := MinInt64), 1)
  {
  }
}
