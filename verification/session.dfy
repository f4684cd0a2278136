/** Several requests of one user handled one after another. The user record
    carries over from each request to the next, so the free time is a budget
    per user, accumulated over all of that user's requests. Requests running
    at the same time are not modelled. */
module Session {
  import opened Ledger
  import opened Supervisor

  /** The runs of each request in order, and the user record afterwards. */
  datatype History = History(runs: seq<Run>, user: User)

  /** Handles `requests` in order, each starting from the user record the
      previous one left behind. */
  function HandleAll(u: User, requests: seq<seq<Event>>): (h: History)
    ensures |h.runs| == |requests|
    ensures h.user.id == u.id && h.user.isPremium == u.isPremium
    ensures forall i :: 0 <= i < |requests| ==> h.runs[i].consumed <= |requests[i]|
    ensures u.isPremium ==> forall i :: 0 <= i < |requests| ==> h.runs[i].status != Returned(false)
    decreases |requests|
  {
    if |requests| == 0 then History([], u)
    else
      var r := HandleRequest(u, requests[0]);
      var rest := HandleAll(r.user, requests[1..]);
      History([r] + rest.runs, rest.user)
  }

  /** Total number of events offered to the requests. */
  function TotalEvents(requests: seq<seq<Event>>): nat
  {
    if |requests| == 0 then 0 else |requests[0]| + TotalEvents(requests[1..])
  }

  /** Total number of ticks the requests consumed, given their runs. */
  function TicksConsumed(requests: seq<seq<Event>>, runs: seq<Run>): nat
    requires |runs| == |requests|
    requires forall i :: 0 <= i < |requests| ==> runs[i].consumed <= |requests[i]|
  {
    if |requests| == 0 then 0
    else TickCount(requests[0][..runs[0].consumed]) + TicksConsumed(requests[1..], runs[1..])
  }

  /** The user's counter accumulates across requests: after the whole
      sequence it equals the starting value plus every tick any request
      consumed, and so it never decreases. */
  lemma {:induction false} TimeAccumulates(u: User, requests: seq<seq<Event>>)
    requires u.timeUsed <= MaxInt64 - TotalEvents(requests)
    ensures var h := HandleAll(u, requests);
            h.user.timeUsed == u.timeUsed + TicksConsumed(requests, h.runs)
    ensures HandleAll(u, requests).user.timeUsed >= u.timeUsed
    decreases |requests|
  {
    if |requests| > 0 {
      var r := HandleRequest(u, requests[0]);
      ChargedPerTick(u, requests[0]);
      TimeAccumulates(r.user, requests[1..]);
      var h := HandleAll(u, requests);
      assert h.runs[1..] == HandleAll(r.user, requests[1..]).runs;
    }
  }

  /** Once a non-premium user is past the free time, every later request is
      decided by its first event: a tick kills it, a `Done` completes it, and
      each such request is charged at most that one tick. */
  lemma {:induction false} OverBudgetKilledOnFirstTick(u: User, requests: seq<seq<Event>>)
    requires !u.isPremium && FreeSeconds < u.timeUsed <= MaxInt64 - |requests|
    ensures var h := HandleAll(u, requests);
            forall i :: 0 <= i < |requests| && |requests[i]| > 0 ==>
              h.runs[i].consumed == 1 && h.runs[i].status == Returned(requests[i][0] == Done)
    ensures var h := HandleAll(u, requests);
            FreeSeconds < h.user.timeUsed <= u.timeUsed + |requests|
    decreases |requests|
  {
    if |requests| > 0 {
      var r := HandleRequest(u, requests[0]);
      OverBudgetKilledOnFirstTick(r.user, requests[1..]);
      var h := HandleAll(u, requests);
      var rest := HandleAll(r.user, requests[1..]);
      forall i | 0 <= i < |requests| && |requests[i]| > 0
        ensures h.runs[i].consumed == 1 && h.runs[i].status == Returned(requests[i][0] == Done)
      {
        if i > 0 {
          assert h.runs[i] == rest.runs[i - 1];
          assert requests[i] == requests[1..][i - 1];
        }
      }
    }
  }

  /** The accumulated budget: however the events fall, a non-premium user
      ends a sequence of requests at most one second per request past the
      larger of its starting counter and the free time. */
  lemma {:induction false} SessionChargeBound(u: User, requests: seq<seq<Event>>)
    requires !u.isPremium && Max(u.timeUsed, FreeSeconds) + |requests| <= MaxInt64
    ensures u.timeUsed <= HandleAll(u, requests).user.timeUsed
    ensures HandleAll(u, requests).user.timeUsed <= Max(u.timeUsed, FreeSeconds) + |requests|
    decreases |requests|
  {
    if |requests| > 0 {
      var r := HandleRequest(u, requests[0]);
      RequestChargeBound(u, requests[0]);
      SessionChargeBound(r.user, requests[1..]);
    }
  }
}
