/** The Redis limiter, which also counts the calls it rejects, and its agreement with the in-memory one. */
module RedisRateLimiting {
  import opened Options
  import opened Histories
  import opened RateLimiting

  /** A counter and the millisecond at which Redis drops it. */
  datatype Counter = Counter(count: nat, expiresAt: int)

  type Store = map<string, Counter>

  predicate Present(store: Store, key: string, now: int) {
    key in store && now < store[key].expiresAt
  }

  /** What PTTL answers: the milliseconds left, or -2 for a missing key. */
  function Pttl(store: Store, key: string, now: int): (ms: int) {
    if Present(store, key, now) then store[key].expiresAt - now else -2
  }

  /** INCR, with the expiry set by the first hit only. */
  function Incremented(store: Store, key: string, windowMs: int, now: int): (r: Store) {
    if Present(store, key, now)
    then store[key := store[key].(count := store[key].count + 1)]
    else store[key := Counter(1, now + windowMs)]
  }

  /** The script without INCR: the count, zero for a missing key. */
  function CountOf(store: Store, key: string, now: int): (n: nat) {
    if Present(store, key, now) then store[key].count else 0
  }

  function RetryAfterMs(pttl: int, windowMs: int): (seconds: int) {
    var remaining := if pttl > 0 then pttl else windowMs;
    remaining / 1000 + 1
  }

  // ----- runs on a clock of whole milliseconds -----

  datatype MsCall = MsCall(kind: Kind, key: string, limit: int, waitMs: nat)

  datatype Server = Server(store: Store, now: int)

  function StepRedis(s: Server, c: MsCall, size: WindowSeconds): (r: Server) {
    var now := s.now + c.waitMs;
    Server(if c.kind.Check? then Incremented(s.store, c.key, size * 1000, now) else s.store, now)
  }

  function RunRedis(h: History<MsCall>, size: WindowSeconds): (s: Server) {
    match h
    case Start => Server(map[], 0)
    case Then(past, c) => StepRedis(RunRedis(past, size), c, size)
  }

  /** A check is denied above the limit after counting itself, a peek at the limit. */
  function RedisVerdict(past: History<MsCall>, c: MsCall, size: WindowSeconds): (v: Verdict) {
    var s := RunRedis(past, size);
    var now := s.now + c.waitMs;
    var store := if c.kind.Check? then Incremented(s.store, c.key, size * 1000, now) else s.store;
    var count := CountOf(store, c.key, now);
    if (if c.kind.Check? then count > c.limit else count >= c.limit)
    then Denied(RetryAfterMs(Pttl(store, c.key, now), size * 1000))
    else Allowed
  }

  function RedisVerdicts(h: History<MsCall>, size: WindowSeconds): (vs: seq<Verdict>) {
    match h
    case Start => []
    case Then(past, c) => RedisVerdicts(past, size) + [RedisVerdict(past, c, size)]
  }

  // ----- the same calls on the in-memory limiter's clock -----

  function Sec(ms: int): (s: real) {
    ms as real / 1000.0
  }

  function InSeconds(h: History<MsCall>): (r: History<Call>) {
    match h
    case Start => Start
    case Then(past, c) => Then(InSeconds(past), AsCall(c))
  }

  /** The call as the in-memory limiter sees it. */
  function AsCall(c: MsCall): (r: Call) {
    Call(c.kind, c.key, c.limit, Sec(c.waitMs))
  }

  // ----- what the trace itself tells of a key's window -----

  function ClockMs(h: History<MsCall>): (now: int) {
    match h
    case Start => 0
    case Then(past, c) => ClockMs(past) + c.waitMs
  }

  predicate StillOpen(since: Option<int>, now: int, size: WindowSeconds) {
    since.Some? && now < since.value + size * 1000
  }

  /** When the latest window of `key` opened: at the first check after the one before had elapsed. */
  function OpenedAt(h: History<MsCall>, key: string, size: WindowSeconds): (at: Option<int>) {
    match h
    case Start => None
    case Then(past, c) =>
      if c.kind.Check? && c.key == key && !StillOpen(OpenedAt(past, key, size), ClockMs(h), size)
      then Some(ClockMs(h)) else OpenedAt(past, key, size)
  }

  /** The checks of `key` from time `t` on. */
  function ChecksFrom(h: History<MsCall>, key: string, t: int): (n: nat) {
    match h
    case Start => 0
    case Then(past, c) => ChecksFrom(past, key, t) + if c.kind.Check? && c.key == key && t <= ClockMs(h) then 1 else 0
  }

  /** Those of them that the in-memory limiter let through. */
  function AcceptedFrom(h: History<MsCall>, key: string, t: int, size: WindowSeconds): (n: nat) {
    match h
    case Start => 0
    case Then(past, c) =>
      AcceptedFrom(past, key, t, size)
      + if c.kind.Check? && c.key == key && t <= ClockMs(h)
        && VerdictOn(InSeconds(past), AsCall(c), size, true).Allowed?
        then 1 else 0
  }

  /**
   The call on which the limiters part: one without an open window and with no budget at all,
   or one whose limit exceeds what the window has accepted but not what it has been asked.
   */
  predicate Splits(past: History<MsCall>, c: MsCall, size: WindowSeconds) {
    var since := OpenedAt(past, c.key, size);
    if StillOpen(since, ClockMs(past) + c.waitMs, size)
    then AcceptedFrom(past, c.key, since.value, size) < c.limit <= ChecksFrom(past, c.key, since.value)
    else c.limit < 1
  }

  predicate NeverSplits(h: History<MsCall>, size: WindowSeconds) {
    match h
    case Start => true
    case Then(past, c) => NeverSplits(past, size) && !Splits(past, c, size)
  }

  // ----- both limiters keep the same window, with these two counts -----

  ghost predicate Simulates(h: History<MsCall>, key: string, size: WindowSeconds) {
    var mem, redis, at := Run(InSeconds(h), size, false), RunRedis(h, size), OpenedAt(h, key, size);
    && mem.now == Sec(ClockMs(h)) && redis.now == ClockMs(h)
    && (key in mem.windows <==> at.Some?) && (key in redis.store <==> at.Some?)
    && (at.Some? ==>
          && mem.windows[key] == Window(Sec(at.value), AcceptedFrom(h, key, at.value, size))
          && redis.store[key] == Counter(ChecksFrom(h, key, at.value), at.value + size * 1000))
  }

  lemma {:induction false} SecDifference(a: int, b: int, size: WindowSeconds)
    ensures size as real - (Sec(a) - Sec(b)) == Sec(b + size * 1000 - a)
    ensures Sec(a) - Sec(b) >= size as real <==> a >= b + size * 1000
    ensures Sec(a) + Sec(b) == Sec(a + b)
  {
  }

  lemma {:induction false} SecFloor(ms: int)
    requires ms >= 0
    ensures Sec(ms).Floor == ms / 1000
  {
    var q, r := ms / 1000, ms % 1000;
    assert ms == 1000 * q + r;
    assert Sec(ms) == q as real + Sec(r);
    assert 0.0 <= Sec(r) < 1.0;
  }

  /** Nothing is counted from a time the latest window no longer reaches. */
  lemma {:induction false} NothingAfterWindow(h: History<MsCall>, key: string, t: int, size: WindowSeconds)
    requires OpenedAt(h, key, size).Some? ==> OpenedAt(h, key, size).value + size * 1000 <= t
    ensures ChecksFrom(h, key, t) == 0 && AcceptedFrom(h, key, t, size) == 0
  {
    match h
    case Start =>
    case Then(past, c) => NothingAfterWindow(past, key, t, size);
  }

  /** What one more call does to the window of `key` and its two counts. */
  ghost predicate CountsStep(past: History<MsCall>, c: MsCall, key: string, size: WindowSeconds) {
    var h, was := Then(past, c), OpenedAt(past, key, size);
    var at := OpenedAt(h, key, size);
    if !c.kind.Check? || c.key != key then
      && at == was
      && (at.Some? ==> && ChecksFrom(h, key, at.value) == ChecksFrom(past, key, at.value)
                       && AcceptedFrom(h, key, at.value, size) == AcceptedFrom(past, key, at.value, size))
    else if !StillOpen(was, ClockMs(h), size) then
      at == Some(ClockMs(h)) && ChecksFrom(h, key, at.value) == 1 && AcceptedFrom(h, key, at.value, size) == 1
    else
      && at == was
      && ChecksFrom(h, key, at.value) == ChecksFrom(past, key, at.value) + 1
      && AcceptedFrom(h, key, at.value, size)
         == AcceptedFrom(past, key, at.value, size) + if AcceptedFrom(past, key, at.value, size) < c.limit then 1 else 0
  }

  lemma {:induction false} OpenedBefore(h: History<MsCall>, key: string, size: WindowSeconds)
    requires OpenedAt(h, key, size).Some?
    ensures OpenedAt(h, key, size).value <= ClockMs(h)
  {
    match h
    case Start =>
    case Then(past, c) => if OpenedAt(past, key, size).Some? { OpenedBefore(past, key, size); }
  }

  /** The in-memory verdict on a call, from the trace's counts. */
  lemma {:induction false} MemoryVerdict(past: History<MsCall>, c: MsCall, size: WindowSeconds)
    requires Simulates(past, c.key, size)
    ensures var at, now := OpenedAt(past, c.key, size), ClockMs(past) + c.waitMs;
            VerdictOn(InSeconds(past), AsCall(c), size, true)
            == if StillOpen(at, now, size) && AcceptedFrom(past, c.key, at.value, size) >= c.limit
               then Denied((at.value + size * 1000 - now) / 1000 + 1) else Allowed
  {
    EvictionChangesNoVerdict(InSeconds(past), AsCall(c), size);
    var at, now := OpenedAt(past, c.key, size), ClockMs(past) + c.waitMs;
    SecDifference(ClockMs(past), c.waitMs, size);
    if at.Some? {
      SecDifference(now, at.value, size);
      if StillOpen(at, now, size) { SecFloor(at.value + size * 1000 - now); }
    }
  }

  lemma {:induction false} CountsAfterCall(past: History<MsCall>, c: MsCall, key: string, size: WindowSeconds)
    requires Simulates(past, key, size)
    ensures CountsStep(past, c, key, size)
  {
    if c.kind.Check? && c.key == key {
      MemoryVerdict(past, c, size);
      var was, now := OpenedAt(past, key, size), ClockMs(past) + c.waitMs;
      if StillOpen(was, now, size) { OpenedBefore(past, key, size); } else { NothingAfterWindow(past, key, now, size); }
    }
  }

  lemma {:induction false} SimulationStep(past: History<MsCall>, c: MsCall, key: string, size: WindowSeconds)
    requires Simulates(past, key, size)
    ensures Simulates(Then(past, c), key, size)
  {
    CountsAfterCall(past, c, key, size);
    SecDifference(ClockMs(past), c.waitMs, size);
    var was, now := OpenedAt(past, key, size), ClockMs(past) + c.waitMs;
    if was.Some? { SecDifference(now, was.value, size); }
  }

  lemma {:induction false} RunsSimulate(h: History<MsCall>, key: string, size: WindowSeconds)
    ensures Simulates(h, key, size)
  {
    match h
    case Start =>
    case Then(past, c) =>
      RunsSimulate(past, key, size);
      SimulationStep(past, c, key, size);
  }

  // ----- exactly when the limiters agree -----

  /** The Redis verdict on a call, from the trace's counts. */
  lemma {:induction false} RedisVerdictFromCounts(past: History<MsCall>, c: MsCall, size: WindowSeconds)
    requires Simulates(past, c.key, size)
    ensures var at, now := OpenedAt(past, c.key, size), ClockMs(past) + c.waitMs;
            RedisVerdict(past, c, size)
            == if StillOpen(at, now, size)
               then (if ChecksFrom(past, c.key, at.value) >= c.limit
                     then Denied((at.value + size * 1000 - now) / 1000 + 1) else Allowed)
               else (if c.limit < 1 then Denied(size + 1) else Allowed)
  {
  }

  lemma {:induction false} AcceptedAreChecks(h: History<MsCall>, key: string, t: int, size: WindowSeconds)
    ensures AcceptedFrom(h, key, t, size) <= ChecksFrom(h, key, t)
  {
    match h
    case Start =>
    case Then(past, c) => AcceptedAreChecks(past, key, t, size);
  }

  lemma {:induction false} SameVerdictIff(past: History<MsCall>, c: MsCall, size: WindowSeconds)
    ensures RedisVerdict(past, c, size) == VerdictOn(InSeconds(past), AsCall(c), size, true) <==> !Splits(past, c, size)
  {
    RunsSimulate(past, c.key, size);
    MemoryVerdict(past, c, size);
    RedisVerdictFromCounts(past, c, size);
    var at := OpenedAt(past, c.key, size);
    if at.Some? { AcceptedAreChecks(past, c.key, at.value, size); }
  }

  ghost predicate Agree(h: History<MsCall>, size: WindowSeconds) {
    RedisVerdicts(h, size) == Verdicts(InSeconds(h), size, true)
  }

  lemma {:induction false} LengthsMatch(h: History<MsCall>, size: WindowSeconds)
    ensures |RedisVerdicts(h, size)| == |Verdicts(InSeconds(h), size, true)|
  {
    match h
    case Start =>
    case Then(past, c) => LengthsMatch(past, size);
  }

  lemma {:induction false} SameLast(a: seq<Verdict>, b: seq<Verdict>, x: Verdict, y: Verdict)
    requires |a| == |b|
    ensures a + [x] == b + [y] <==> a == b && x == y
  {
    if a + [x] == b + [y] {
      assert (a + [x])[..|a|] == a && (b + [y])[..|b|] == b;
      assert (a + [x])[|a|] == x && (b + [y])[|b|] == y;
    }
  }

  /**
   The two limiters give the same verdicts and retry times on a sequence of checks and peeks
   exactly when no call of it splits them. Only Redis counts the calls it rejects, so a split
   needs a limit above the accepted calls of the window and not above all of them.
   */
  lemma {:induction false} AgreeIff(h: History<MsCall>, size: WindowSeconds)
    ensures Agree(h, size) <==> NeverSplits(h, size)
  {
    match h
    case Start =>
    case Then(past, c) =>
      AgreeIff(past, size);
      SameVerdictIff(past, c, size);
      LengthsMatch(past, size);
      SameLast(RedisVerdicts(past, size), Verdicts(InSeconds(past), size, true),
               RedisVerdict(past, c, size), VerdictOn(InSeconds(past), AsCall(c), size, true));
  }

  // ----- what follows for limits a deployment may use -----

  /** The limit of the latest call on `key`. */
  ghost function LastLimit(h: History<MsCall>, key: string): Option<int> {
    match h
    case Start => None
    case Then(past, c) => if c.key == key then Some(c.limit) else LastLimit(past, key)
  }

  /** Limits are at least one, and not raised on a key while its window is open. */
  ghost predicate NeverRaised(h: History<MsCall>, size: WindowSeconds) {
    match h
    case Start => true
    case Then(past, c) =>
      && NeverRaised(past, size)
      && c.limit >= 1
      && (StillOpen(OpenedAt(past, c.key, size), ClockMs(h), size) && LastLimit(past, c.key).Some? ==>
            c.limit <= LastLimit(past, c.key).value)
  }

  /** Without raises a window holds a rejected call only if its limit was used up. */
  lemma {:induction false} RejectedMeansUsedUp(h: History<MsCall>, key: string, size: WindowSeconds)
    requires NeverRaised(h, size) && StillOpen(OpenedAt(h, key, size), ClockMs(h), size)
    ensures var t := OpenedAt(h, key, size).value;
            || AcceptedFrom(h, key, t, size) == ChecksFrom(h, key, t)
            || (LastLimit(h, key).Some? && LastLimit(h, key).value <= AcceptedFrom(h, key, t, size))
  {
    match h
    case Start =>
    case Then(past, c) =>
      RunsSimulate(past, key, size);
      CountsAfterCall(past, c, key, size);
      if StillOpen(OpenedAt(past, key, size), ClockMs(past), size) { RejectedMeansUsedUp(past, key, size); }
  }

  lemma {:induction false} NeverRaisedNeverSplits(h: History<MsCall>, size: WindowSeconds)
    requires NeverRaised(h, size)
    ensures NeverSplits(h, size)
  {
    match h
    case Start =>
    case Then(past, c) =>
      NeverRaisedNeverSplits(past, size);
      var at := OpenedAt(past, c.key, size);
      if StillOpen(at, ClockMs(h), size) { RejectedMeansUsedUp(past, c.key, size); }
  }

  /** They agree in particular as long as limits are positive and not raised inside a window. */
  lemma {:induction false} LimitersAgree(h: History<MsCall>, size: WindowSeconds)
    requires NeverRaised(h, size)
    ensures Agree(h, size)
  {
    NeverRaisedNeverSplits(h, size);
    AgreeIff(h, size);
  }

  ghost predicate FixedLimit(h: History<MsCall>, limit: int) {
    match h
    case Start => true
    case Then(past, c) => FixedLimit(past, limit) && c.limit == limit
  }

  lemma {:induction false} FixedIsNeverRaised(h: History<MsCall>, limit: int, size: WindowSeconds)
    requires FixedLimit(h, limit) && limit >= 1
    ensures NeverRaised(h, size) && forall key :: LastLimit(h, key).Some? ==> LastLimit(h, key).value == limit
  {
    match h
    case Start =>
    case Then(past, c) => FixedIsNeverRaised(past, limit, size);
  }

  /** With one limit for all calls, the limiters are interchangeable exactly when that limit is positive. */
  lemma {:induction false} InterchangeableIffLimitPositive(limit: int, size: WindowSeconds)
    ensures (forall h | FixedLimit(h, limit) :: Agree(h, size)) <==> limit >= 1
  {
    if limit >= 1 {
      forall h | FixedLimit(h, limit) ensures Agree(h, size) {
        FixedIsNeverRaised(h, limit, size);
        LimitersAgree(h, size);
      }
    } else {
      // The in-memory limiter lets the first call of a window through without looking at the limit.
      var h := Then(Start, MsCall(Check, "k", limit, 0));
      assert FixedLimit(h, limit) && Splits(Start, h.last, size);
      AgreeIff(h, size);
    }
  }

  /** `n` checks of one key at one instant. */
  ghost function Hits(limit: int, n: nat): History<MsCall> {
    if n == 0 then Start else Then(Hits(limit, n - 1), MsCall(Check, "k", limit, 0))
  }

  lemma {:induction false} HitsCounts(limit: int, n: nat, size: WindowSeconds)
    requires limit >= 1 && n >= 1
    ensures ClockMs(Hits(limit, n)) == 0 && OpenedAt(Hits(limit, n), "k", size) == Some(0)
    ensures ChecksFrom(Hits(limit, n), "k", 0) == n
    ensures AcceptedFrom(Hits(limit, n), "k", 0, size) == if n <= limit then n else limit
  {
    var fewer, c := Hits(limit, n - 1), MsCall(Check, "k", limit, 0);
    if n > 1 { HitsCounts(limit, n - 1, size); }
    RunsSimulate(fewer, "k", size);
    CountsAfterCall(fewer, c, "k", size);
  }

  /**
   Every raise can part them, as on an upgrade: once `high` calls have been made under the limit
   `low`, Redis holds the rejected ones against the new limit and the in-memory limiter does not.
   */
  lemma {:induction false} RaisedLimitDisagrees(low: int, high: int, size: WindowSeconds)
    requires 1 <= low < high
    ensures !Agree(Then(Hits(low, high), MsCall(Check, "k", high, 0)), size)
  {
    var past, c := Hits(low, high), MsCall(Check, "k", high, 0);
    HitsCounts(low, high, size);
    assert Splits(past, c, size);
    AgreeIff(Then(past, c), size);
  }

  // ----- the class -----

  datatype Answer = Decided(verdict: Verdict) | StoreUnavailable

  /** How the round-trip goes: answered, never arrived, or carried out with the reply lost. */
  datatype Reach = Answered | NotReached | ReplyLost

  /** The counter of `key` has not expired. */
  ghost predicate Alive(store: Store, key: string, now: int) {
    key in store && now < store[key].expiresAt
  }

  class RedisRateLimiter {
    const limit: int
    const windowSeconds: WindowSeconds
    /** The store, which outlives the process and is shared by all of them. */
    var store: Store
    ghost var history: History<MsCall>

    ghost predicate Valid()
      reads this
    {
      RunRedis(history, windowSeconds).store == store
    }

    ghost function Clock(): int
      reads this
    {
      RunRedis(history, windowSeconds).now
    }

    constructor (limit: int, windowSeconds: WindowSeconds)
      ensures Valid() && history == Start && this.limit == limit && this.windowSeconds == windowSeconds
    {
      this.limit, this.windowSeconds := limit, windowSeconds;
      store, history := map[], Start;
    }

    /**
     A failing store denies the call and is reported as such, never as a verdict. A call whose
     reply is lost has been counted all the same.
     */
    method Check(key: string, override: Option<int>, now: int, reach: Reach) returns (a: Answer)
      requires Valid() && now >= Clock()
      modifies this
      ensures Valid()
      ensures reach.NotReached? ==> a.StoreUnavailable? && store == old(store) && history == old(history)
      ensures !reach.NotReached? ==>
                var effective := if override.Some? then override.value else limit;
                var c := MsCall(Kind.Check, key, effective, now - old(Clock()));
                && history == Then(old(history), c)
                && a == if reach.ReplyLost? then StoreUnavailable
                        else Decided(RedisVerdict(old(history), c, windowSeconds))
      // The script counts the call, denied or not, in a counter that lives for one window from its first call.
      ensures !reach.NotReached? ==>
                && store == old(store)[key :=
                     if Alive(old(store), key, now) then Counter(old(store)[key].count + 1, old(store)[key].expiresAt)
                     else Counter(1, now + 1000 * windowSeconds)]
                && (reach.Answered? ==>
                      a == Decided(if store[key].count > (if override.Some? then override.value else limit)
                                   then Denied((store[key].expiresAt - now) / 1000 + 1) else Allowed))
    {
      if reach.NotReached? {
        return StoreUnavailable;
      }
      var effective := if override.Some? then override.value else limit;
      var windowMs := windowSeconds * 1000;
      history := Then(history, MsCall(Kind.Check, key, effective, now - Clock()));
      var current := 1;
      if key in store && now < store[key].expiresAt {
        current := store[key].count + 1;
        store := store[key := store[key].(count := current)];
      } else {
        store := store[key := Counter(current, now + windowMs)];
      }
      var pttl := store[key].expiresAt - now;
      if reach.ReplyLost? {
        return StoreUnavailable;
      }
      if current > effective {
        var remaining := if pttl > 0 then pttl else windowMs;
        return Decided(Denied(remaining / 1000 + 1));
      }
      a := Decided(Allowed);
    }

    method Peek(key: string, override: Option<int>, now: int, answered: bool) returns (a: Answer)
      requires Valid() && now >= Clock()
      modifies `history
      ensures Valid()
      ensures !answered ==> a.StoreUnavailable? && history == old(history)
      ensures answered ==>
                var effective := if override.Some? then override.value else limit;
                var c := MsCall(Kind.Peek, key, effective, now - old(Clock()));
                && history == Then(old(history), c)
                && a == Decided(RedisVerdict(old(history), c, windowSeconds))
      ensures answered ==>
                var effective := if override.Some? then override.value else limit;
                a == Decided(if Alive(store, key, now) && store[key].count >= effective
                             then Denied((store[key].expiresAt - now) / 1000 + 1)
                             else if !Alive(store, key, now) && 0 >= effective then Denied(windowSeconds + 1)
                             else Allowed)
    {
      if !answered {
        return StoreUnavailable;
      }
      var effective := if override.Some? then override.value else limit;
      history := Then(history, MsCall(Kind.Peek, key, effective, now - Clock()));
      var count := CountOf(store, key, now);
      var pttl := Pttl(store, key, now);
      if count >= effective {
        var remaining := if pttl > 0 then pttl else windowSeconds * 1000;
        return Decided(Denied(remaining / 1000 + 1));
      }
      a := Decided(Allowed);
    }
  }
}
