/** The in-memory fixed-window limiter: what it decides, over every sequence of calls. */
module RateLimiting {
  import opened Options
  import opened Histories

  type Seconds = r: real | r >= 0.0
  type WindowSeconds = n: int | n >= 1 witness 86400

  datatype Window = Window(start: real, count: nat)

  type Windows = map<string, Window>

  datatype Verdict = Allowed | Denied(retryAfter: int)

  /** The window has fully elapsed at `now`. */
  predicate Elapsed(w: Window, now: real, size: WindowSeconds) {
    now - w.start >= size as real
  }

  predicate Open(ws: Windows, key: string, now: real, size: WindowSeconds) {
    key in ws && !Elapsed(ws[key], now, size)
  }

  function Evicted(ws: Windows, now: real, size: WindowSeconds): (r: Windows) {
    map key | key in ws && !Elapsed(ws[key], now, size) :: ws[key]
  }

  function RetryAfter(w: Window, now: real, size: WindowSeconds): (seconds: int) {
    (size as real - (now - w.start)).Floor + 1
  }

  /** Whether `key` is over budget at `now`. */
  function PeekVerdict(ws: Windows, key: string, limit: int, now: real, size: WindowSeconds): (v: Verdict) {
    if Open(ws, key, now, size) && ws[key].count >= limit then Denied(RetryAfter(ws[key], now, size)) else Allowed
  }

  /** The windows after a check; a first call in a window is let through whatever the limit. */
  function Counted(ws: Windows, key: string, limit: int, now: real, size: WindowSeconds): (r: Windows) {
    if !Open(ws, key, now, size) then ws[key := Window(now, 1)]
    else if ws[key].count >= limit then ws
    else ws[key := ws[key].(count := ws[key].count + 1)]
  }

  // ----- runs -----

  datatype Kind = Check | Peek

  /** One call, `wait` seconds after the previous one, with the limit in force for it. */
  datatype Call = Call(kind: Kind, key: string, limit: int, wait: Seconds)

  datatype Limiter = Limiter(windows: Windows, now: real)

  function Step(l: Limiter, c: Call, size: WindowSeconds, evict: bool): (r: Limiter) {
    var now := l.now + c.wait;
    var kept := if evict && c.kind.Check? then Evicted(l.windows, now, size) else l.windows;
    Limiter(if c.kind.Check? then Counted(kept, c.key, c.limit, now, size) else kept, now)
  }

  /** The limiter after a run, with the eviction the program does or, for comparison, without. */
  function Run(h: History<Call>, size: WindowSeconds, evict: bool): (l: Limiter) {
    match h
    case Start => Limiter(map[], 0.0)
    case Then(past, c) => Step(Run(past, size, evict), c, size, evict)
  }

  function VerdictOn(past: History<Call>, c: Call, size: WindowSeconds, evict: bool): (v: Verdict) {
    var l := Run(past, size, evict);
    var now := l.now + c.wait;
    PeekVerdict(if evict && c.kind.Check? then Evicted(l.windows, now, size) else l.windows, c.key, c.limit, now, size)
  }

  /** Every verdict of a run with its retry_after, in order. */
  function Verdicts(h: History<Call>, size: WindowSeconds, evict: bool): (vs: seq<Verdict>) {
    match h
    case Start => []
    case Then(past, c) => Verdicts(past, size, evict) + [VerdictOn(past, c, size, evict)]
  }

  // ----- eviction changes no verdict -----

  /** `small` lacks only windows that have elapsed. */
  ghost predicate Abridges(small: Limiter, full: Limiter, size: WindowSeconds) {
    && small.now == full.now
    && (forall key :: key in small.windows ==> key in full.windows && small.windows[key] == full.windows[key])
    && (forall key :: Open(full.windows, key, full.now, size) ==> key in small.windows)
  }

  lemma {:induction false} StepAbridges(small: Limiter, full: Limiter, c: Call, size: WindowSeconds)
    requires Abridges(small, full, size)
    ensures Abridges(Step(small, c, size, true), Step(full, c, size, false), size)
  {
    var now := full.now + c.wait;
    forall key | Open(full.windows, key, now, size) ensures key in small.windows {
      assert Open(full.windows, key, full.now, size);
    }
  }

  lemma {:induction false} RunAbridges(h: History<Call>, size: WindowSeconds)
    ensures Abridges(Run(h, size, true), Run(h, size, false), size)
  {
    match h
    case Start =>
    case Then(past, c) =>
      RunAbridges(past, size);
      StepAbridges(Run(past, size, true), Run(past, size, false), c, size);
  }

  lemma {:induction false} EvictionChangesNoVerdict(past: History<Call>, c: Call, size: WindowSeconds)
    ensures VerdictOn(past, c, size, true) == VerdictOn(past, c, size, false)
  {
    RunAbridges(past, size);
    var full := Run(past, size, false);
    if Open(full.windows, c.key, full.now + c.wait, size) {
      assert Open(full.windows, c.key, full.now, size);
    }
  }

  /** The evicting limiter gives the verdicts and retry times of one that never forgets a window. */
  lemma {:induction false} EvictionIsInvisible(h: History<Call>, size: WindowSeconds)
    ensures Verdicts(h, size, true) == Verdicts(h, size, false)
  {
    match h
    case Start =>
    case Then(past, c) =>
      EvictionIsInvisible(past, size);
      EvictionChangesNoVerdict(past, c, size);
  }

  /** After a check no elapsed window is stored: the table holds only keys seen within the last window. */
  lemma {:induction false} CheckLeavesOnlyOpenWindows(past: History<Call>, c: Call, size: WindowSeconds, key: string)
    requires c.kind.Check?
    requires key in Run(Then(past, c), size, true).windows
    ensures Open(Run(Then(past, c), size, true).windows, key, Run(Then(past, c), size, true).now, size)
  {
  }

  // ----- how much gets through -----

  /** Accepted checks of `key` in the half-open interval of one window length from `t`. */
  ghost function Accepted(h: History<Call>, size: WindowSeconds, evict: bool, key: string, t: real): nat {
    match h
    case Start => 0
    case Then(past, c) =>
      Accepted(past, size, evict, key, t)
      + if c.kind.Check? && c.key == key && VerdictOn(past, c, size, evict).Allowed?
           && t <= Run(h, size, evict).now < t + size as real then 1 else 0
  }

  ghost predicate LimitsAtMost(h: History<Call>, limit: int) {
    match h
    case Start => true
    case Then(past, c) => LimitsAtMost(past, limit) && c.limit <= limit
  }

  /** How the last window of `key` bounds what the interval from `t` has let through so far. */
  ghost predicate Budgeted(l: Limiter, key: string, t: real, limit: int, size: WindowSeconds, accepted: nat) {
    && (l.now < t ==> accepted == 0)
    && if key !in l.windows then accepted == 0
    else
      var w := l.windows[key];
      && 1 <= w.count <= limit && w.start <= l.now
      && if w.start < t then accepted <= w.count - 1
         else if w.start < t + size as real then accepted <= limit - 1 + w.count
         else accepted <= 2 * limit - 1
  }

  lemma {:induction false} IntervalBudget(h: History<Call>, size: WindowSeconds, key: string, t: real, limit: int)
    requires limit >= 1 && LimitsAtMost(h, limit)
    ensures Budgeted(Run(h, size, false), key, t, limit, size, Accepted(h, size, false, key, t))
  {
    match h
    case Start =>
    case Then(past, c) => IntervalBudget(past, size, key, t, limit);
  }

  lemma {:induction false} SameAccepted(h: History<Call>, size: WindowSeconds, key: string, t: real)
    ensures Accepted(h, size, true, key, t) == Accepted(h, size, false, key, t)
  {
    match h
    case Start =>
    case Then(past, c) =>
      SameAccepted(past, size, key, t);
      EvictionChangesNoVerdict(past, c, size);
      RunAbridges(past, size);
  }

  /** No interval of one window length, wherever it starts, lets more than 2 * limit - 1 calls of a key through. */
  lemma {:induction false} IntervalAcceptsAtMost(h: History<Call>, size: WindowSeconds, key: string, t: real,
                                                 limit: int)
    requires limit >= 1 && LimitsAtMost(h, limit)
    ensures Accepted(h, size, true, key, t) <= 2 * limit - 1
  {
    IntervalBudget(h, size, key, t, limit);
    SameAccepted(h, size, key, t);
  }

  /** One key alone has a window, and nothing in the run used a limit above `limit`. */
  ghost predicate Sole(h: History<Call>, size: WindowSeconds, limit: int, w: Window, now: real) {
    Run(h, size, true) == Limiter(map["k" := w], now) && LimitsAtMost(h, limit)
  }

  /** How many of `n` calls at `now` count in the interval of one window length from `t`. */
  ghost function Within(now: real, t: real, size: WindowSeconds, n: nat): nat {
    if t <= now < t + size as real then n else 0
  }

  /** A check of the key with room left in its open window is accepted. */
  lemma {:induction false} AcceptedStep(past: History<Call>, size: WindowSeconds, limit: int, w: Window, now: real,
                                        t: real)
    returns (h: History<Call>)
    requires Sole(past, size, limit, w, now) && 1 <= w.count < limit && !Elapsed(w, now, size)
    ensures Sole(h, size, limit, w.(count := w.count + 1), now)
    ensures Accepted(h, size, true, "k", t) == Accepted(past, size, true, "k", t) + Within(now, t, size, 1)
  {
    h := Then(past, Call(Check, "k", limit, 0.0));
    assert Evicted(map["k" := w], now, size) == map["k" := w];
  }

  /** The first check after a window has elapsed is accepted and opens another. */
  lemma {:induction false} AcceptedFirst(past: History<Call>, size: WindowSeconds, limit: int, wait: Seconds, t: real)
    returns (h: History<Call>)
    requires LimitsAtMost(past, limit)
    requires forall key :: key in Run(past, size, true).windows ==>
               Elapsed(Run(past, size, true).windows[key], Run(past, size, true).now + wait, size)
    ensures var now := Run(past, size, true).now + wait;
            && Sole(h, size, limit, Window(now, 1), now)
            && Accepted(h, size, true, "k", t) == Accepted(past, size, true, "k", t) + Within(now, t, size, 1)
  {
    h := Then(past, Call(Check, "k", limit, wait));
    assert Evicted(Run(past, size, true).windows, Run(past, size, true).now + wait, size) == map[];
  }

  /** A peek only lets time pass. */
  lemma {:induction false} PeekWaits(past: History<Call>, size: WindowSeconds, limit: int, w: Window, now: real,
                                     wait: Seconds, t: real)
    returns (h: History<Call>)
    requires Sole(past, size, limit, w, now)
    ensures Sole(h, size, limit, w, now + wait)
    ensures Accepted(h, size, true, "k", t) == Accepted(past, size, true, "k", t)
  {
    h := Then(past, Call(Peek, "k", limit, wait));
  }

  /** A burst of checks fills the window. */
  lemma {:induction false} Burst(past: History<Call>, size: WindowSeconds, limit: int, w: Window, now: real, t: real,
                                 n: nat)
    returns (h: History<Call>)
    requires Sole(past, size, limit, w, now) && 1 <= w.count && w.count + n <= limit && !Elapsed(w, now, size)
    ensures Sole(h, size, limit, w.(count := w.count + n), now)
    ensures Accepted(h, size, true, "k", t) == Accepted(past, size, true, "k", t) + Within(now, t, size, n)
    decreases n
  {
    h := past;
    if n > 0 {
      var fewer := Burst(past, size, limit, w, now, t, n - 1);
      h := AcceptedStep(fewer, size, limit, w.(count := w.count + n - 1), now, t);
    }
  }

  /** One call at the start, and the rest of its window half a window later, inside the interval. */
  lemma {:induction false} FirstWindow(limit: int, size: WindowSeconds, t: real) returns (h: History<Call>)
    requires limit >= 1 && t == size as real / 2.0
    ensures Sole(h, size, limit, Window(0.0, limit), t) && Accepted(h, size, true, "k", t) == limit - 1
  {
    var first := AcceptedFirst(Start, size, limit, 0.0, t);
    var waited := PeekWaits(first, size, limit, Window(0.0, 1), 0.0, t, t);
    h := Burst(waited, size, limit, Window(0.0, 1), t, t, limit - 1);
  }

  /** A full window as soon as the first has elapsed, inside the interval still. */
  lemma {:induction false} SecondWindow(past: History<Call>, limit: int, size: WindowSeconds, t: real)
    returns (h: History<Call>)
    requires limit >= 1 && t == size as real / 2.0 && Sole(past, size, limit, Window(0.0, limit), t)
    ensures LimitsAtMost(h, limit)
    ensures Accepted(h, size, true, "k", t) == Accepted(past, size, true, "k", t) + limit
  {
    var reopened := AcceptedFirst(past, size, limit, t, t);
    h := Burst(reopened, size, limit, Window(t + t, 1), t + t, t, limit - 1);
  }

  /** The bound is reached for every limit and every window length. */
  lemma {:induction false} IntervalBoundIsReached(limit: int, size: WindowSeconds) returns (h: History<Call>, t: real)
    requires limit >= 1
    ensures LimitsAtMost(h, limit) && Accepted(h, size, true, "k", t) == 2 * limit - 1
  {
    t := size as real / 2.0;
    var filled := FirstWindow(limit, size, t);
    h := SecondWindow(filled, limit, size, t);
  }

  // ----- the class -----

  /** What a call finds: `key` has a window that began less than a window's length ago. */
  ghost predicate Running(ws: Windows, key: string, now: real, size: WindowSeconds) {
    key in ws && now - ws[key].start < size as real
  }

  /** Denied exactly in a running window whose budget is used up, for the seconds it still runs, and one. */
  ghost function Ruling(ws: Windows, key: string, limit: int, now: real, size: WindowSeconds): Verdict {
    if Running(ws, key, now, size) && ws[key].count >= limit
    then Denied((ws[key].start + size as real - now).Floor + 1) else Allowed
  }

  class RateLimiter {
    const limit: int
    const windowSeconds: WindowSeconds
    var windows: Windows
    ghost var history: History<Call>

    /** The stored windows are those of the recorded run. */
    ghost predicate Valid()
      reads this
    {
      Run(history, windowSeconds, true).windows == windows
    }

    ghost function Clock(): real
      reads this
    {
      Run(history, windowSeconds, true).now
    }

    constructor (limit: int, windowSeconds: WindowSeconds)
      ensures Valid() && history == Start && this.limit == limit && this.windowSeconds == windowSeconds
    {
      this.limit, this.windowSeconds := limit, windowSeconds;
      windows, history := map[], Start;
    }

    method EvictExpired(now: real)
      modifies `windows
      ensures windows == Evicted(old(windows), now, windowSeconds)
      ensures forall key :: key in windows <==> Running(old(windows), key, now, windowSeconds)
      ensures forall key :: key in windows ==> windows[key] == old(windows)[key]
    {
      var stale := set key | key in windows && now - windows[key].start >= windowSeconds as real;
      while stale != {}
        invariant forall key :: key in stale ==> key in old(windows) && Elapsed(old(windows)[key], now, windowSeconds)
        invariant forall key :: key in windows <==>
                  key in old(windows) && (key in stale || !Elapsed(old(windows)[key], now, windowSeconds))
        invariant forall key :: key in windows ==> windows[key] == old(windows)[key]
        decreases |stale|
      {
        var key :| key in stale;
        windows := windows - {key};
        stale := stale - {key};
      }
    }

    /** Records the call unless `key` is over budget. */
    method Check(key: string, override: Option<int>, now: real) returns (v: Verdict)
      requires Valid() && now >= Clock()
      modifies this
      ensures Valid() && Clock() == now
      ensures var effective := if override.Some? then override.value else limit;
              var c := Call(Kind.Check, key, effective, now - old(Clock()));
              history == Then(old(history), c) && v == VerdictOn(old(history), c, windowSeconds, true)
      ensures forall k :: k in windows ==> Open(windows, k, now, windowSeconds)
      ensures v == Ruling(old(windows), key, if override.Some? then override.value else limit, now, windowSeconds)
      // Elapsed windows go; this key's window is opened, charged or, when the call is denied, left alone.
      ensures forall k :: k in windows <==> k == key || Running(old(windows), k, now, windowSeconds)
      ensures forall k :: k in windows && k != key ==> windows[k] == old(windows)[k]
      ensures windows[key] == if !Running(old(windows), key, now, windowSeconds) then Window(now, 1)
                              else if v.Denied? then old(windows)[key]
                              else Window(old(windows)[key].start, old(windows)[key].count + 1)
    {
      var effective := if override.Some? then override.value else limit;
      history := Then(history, Call(Kind.Check, key, effective, now - Clock()));
      EvictExpired(now);
      if key !in windows || now - windows[key].start >= windowSeconds as real {
        windows := windows[key := Window(now, 1)];
        return Allowed;
      }
      var window := windows[key];
      if window.count >= effective {
        return Denied((windowSeconds as real - (now - window.start)).Floor + 1);
      }
      windows := windows[key := window.(count := window.count + 1)];
      v := Allowed;
    }

    /** The verdict the next check would get, at no charge. */
    method Peek(key: string, override: Option<int>, now: real) returns (v: Verdict)
      requires Valid() && now >= Clock()
      modifies `history
      ensures Valid() && Clock() == now
      ensures var effective := if override.Some? then override.value else limit;
              var c := Call(Kind.Peek, key, effective, now - old(Clock()));
              history == Then(old(history), c) && v == VerdictOn(old(history), c, windowSeconds, true)
      ensures v == Ruling(windows, key, if override.Some? then override.value else limit, now, windowSeconds)
    {
      var effective := if override.Some? then override.value else limit;
      history := Then(history, Call(Kind.Peek, key, effective, now - Clock()));
      if key !in windows || now - windows[key].start >= windowSeconds as real {
        return Allowed;
      }
      if windows[key].count >= effective {
        return Denied((windowSeconds as real - (now - windows[key].start)).Floor + 1);
      }
      v := Allowed;
    }
  }
}
