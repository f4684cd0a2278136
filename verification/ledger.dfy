/** The per-user ledger of the time-limited video service: the user record,
    its 64-bit time counter, its mutex, and the charge-and-check step that a
    request performs once per elapsed second. */
module Ledger {

  const MinInt64: int := -0x8000_0000_0000_0000
  const MaxInt64: int := 0x7FFF_FFFF_FFFF_FFFF
  const TwoTo64: int := 0x1_0000_0000_0000_0000

  /** Go's `int64`. */
  type Int64 = x: int | -0x8000_0000_0000_0000 <= x < 0x8000_0000_0000_0000

  /** Seconds of processing a non-premium user may use; a tick that takes the
      accumulated total strictly past this value ends the request. */
  const FreeSeconds: int := 10

  /** The user record. `timeUsed` counts seconds charged so far, across all of
      the user's requests. Its mutex is modelled separately by `Guarded`. */
  datatype User = User(id: int, isPremium: bool, timeUsed: Int64)

  /** Two's-complement truncation of an integer to 64 bits, which is what Go
      does with the result of a signed `int64` operation that overflows. */
  function WrapInt64(x: int): (r: Int64)
    ensures MinInt64 <= x <= MaxInt64 ==> r == x
    ensures x == MaxInt64 + 1 ==> r == MinInt64
  {
    (x - MinInt64) % TwoTo64 + MinInt64
  }

  /** `TimeUsed++` on an `int64`. */
  function Increment(t: Int64): (r: Int64)
    ensures t < MaxInt64 ==> r == t + 1 && r > t
    ensures t == MaxInt64 ==> r == MinInt64 && r < t
  {
    WrapInt64(t + 1)
  }

  /** True when the user has used up the free time and is not exempt from it. */
  predicate OverLimit(u: User)
  {
    u.timeUsed > FreeSeconds && !u.isPremium
  }

  /** A user record together with the state of its per-user mutex. */
  datatype Guarded = Guarded(user: User, held: bool)

  /** `Mutex.Lock`. In a sequential model locking a held mutex would block
      forever, so the caller must not hold it. */
  function Lock(g: Guarded): (h: Guarded)
    requires !g.held
    ensures h.held && h.user == g.user
  {
    g.(held := true)
  }

  /** `Mutex.Unlock`. Go aborts the program when an unlocked mutex is
      unlocked, so the caller must hold it. */
  function Unlock(g: Guarded): (h: Guarded)
    requires g.held
    ensures !h.held && h.user == g.user
  {
    g.(held := false)
  }

  /** Charges one second to the user. Only allowed while the mutex is held;
      nothing but the counter changes. */
  function Charge(g: Guarded): (h: Guarded)
    requires g.held
    ensures h.held
    ensures h.user.id == g.user.id && h.user.isPremium == g.user.isPremium
    ensures h.user.timeUsed == Increment(g.user.timeUsed)
    ensures g.user.timeUsed < MaxInt64 ==> h.user.timeUsed == g.user.timeUsed + 1
    ensures g.user.timeUsed == MaxInt64 ==> h.user.timeUsed == MinInt64
  {
    g.(user := g.user.(timeUsed := Increment(g.user.timeUsed)))
  }

  /** What one tick does to the ledger: the charged record (with its mutex)
      and whether the request must be killed. */
  datatype TickResult = TickResult(state: Guarded, kill: bool)

  /** The body of the tick branch of the request loop: lock, charge one
      second, decide, and unlock on whichever path is taken. */
  function ChargeAndCheck(g: Guarded): (r: TickResult)
    requires !g.held
    ensures !r.state.held
    ensures r.state.user.id == g.user.id
    ensures r.state.user.isPremium == g.user.isPremium
    ensures r.state.user.timeUsed == Increment(g.user.timeUsed)
    ensures g.user.timeUsed < MaxInt64 ==> r.state.user.timeUsed == g.user.timeUsed + 1
    ensures g.user.timeUsed == MaxInt64 ==> r.state.user.timeUsed == MinInt64 && !r.kill
    ensures r.kill <==> !g.user.isPremium && r.state.user.timeUsed > FreeSeconds
    ensures g.user.timeUsed < MaxInt64 ==>
              (r.kill <==> !g.user.isPremium && g.user.timeUsed + 1 > FreeSeconds)
  {
    var locked := Lock(g);
    var charged := Charge(locked);
    if OverLimit(charged.user) then
      TickResult(Unlock(charged), true)
    else
      TickResult(Unlock(charged), false)
  }
}
