/** The fixed-window HTTP rate limiter. Every limiter made by
    `create_rate_limiter` reads and writes the one module-level `ip_store`;
    `now` is an argument, in milliseconds. */
module HttpRateLimit {
  import opened Common

  /** The parameters of `create_rate_limiter`, in requests and seconds. */
  datatype LimiterConfig = LimiterConfig(maxRequests: int, timeWindow: int, blockDuration: int)

  const ApiLimiter: LimiterConfig := LimiterConfig(100, 60, 300)
  const MessageLimiter: LimiterConfig := LimiterConfig(20, 60, 120)
  const StrictLimiter: LimiterConfig := LimiterConfig(20, 60, 600)

  /** One `ip_store` entry; `blockedUntil` is an optional field. */
  datatype IpEntry = IpEntry(count: int, resetTime: int, blockedUntil: Option<int>)

  /** The `X-RateLimit-*` headers. */
  datatype Headers = Headers(limit: int, remaining: int, reset: int)

  /** What the middleware does with a request: a 429 before any header is
      set, a 429 after the headers, or `next()`. */
  datatype Outcome =
    | Blocked(retryAfterSeconds: int)
    | Limited(headers: Headers, retryAfterSeconds: int)
    | Passed(headers: Headers)

  datatype Handled = Handled(outcome: Outcome, entry: IpEntry)

  /** `Math.ceil(x / d)` for a positive divisor. */
  function CeilDiv(x: int, d: int): (r: int)
    requires d > 0
    ensures (r - 1) * d < x <= r * d
  {
    var q := (-x) / d;
    assert -x == d * q + (-x) % d;
    -q
  }

  function Max0(x: int): (r: int)
    ensures r >= 0 && r >= x && (r == 0 || r == x)
  {
    if x > 0 then x else 0
  }

  /** The client key: the `X-Forwarded-For` header, else the socket's
      remote address, else "unknown"; an empty string counts as absent. */
  function ClientKey(forwardedFor: Option<string>, remoteAddress: Option<string>): (r: string)
    ensures r != ""
    ensures forwardedFor.Some? && forwardedFor.value != "" ==> r == forwardedFor.value
    ensures forwardedFor.None? || forwardedFor.value == "" ==>
      r == (if remoteAddress.Some? && remoteAddress.value != "" then remoteAddress.value else "unknown")
  {
    if forwardedFor.Some? && forwardedFor.value != "" then forwardedFor.value
    else if remoteAddress.Some? && remoteAddress.value != "" then remoteAddress.value
    else "unknown"
  }

  /** The entry a new key starts with. */
  function NewEntry(cfg: LimiterConfig, now: int): IpEntry {
    IpEntry(0, now + cfg.timeWindow * 1000, None)
  }

  predicate Blocking(e: IpEntry, now: int) {
    e.blockedUntil.Some? && e.blockedUntil.value != 0 && now < e.blockedUntil.value
  }

  /** One request through the limiter closure, on an initialised entry. */
  function Step(cfg: LimiterConfig, e: IpEntry, now: int): Handled {
    if Blocking(e, now) then Handled(Blocked(CeilDiv(e.blockedUntil.value - now, 1000)), e)
    else
      var e1 := if now > e.resetTime then e.(count := 0, resetTime := now + cfg.timeWindow * 1000) else e;
      var e2 := e1.(count := e1.count + 1);
      var h := Headers(cfg.maxRequests, Max0(cfg.maxRequests - e2.count), CeilDiv(e2.resetTime, 1000));
      if e2.count > cfg.maxRequests then
        Handled(Limited(h, cfg.blockDuration), e2.(blockedUntil := Some(now + cfg.blockDuration * 1000)))
      else Handled(Passed(h), e2)
  }

  function EntryOrNew(entries: map<string, IpEntry>, cfg: LimiterConfig, key: string, now: int): IpEntry {
    if key in entries then entries[key] else NewEntry(cfg, now)
  }

  /** Periodic eviction removes an entry that is not blocked any more and
      whose window is over. */
  predicate Evictable(e: IpEntry, now: int) {
    (e.blockedUntil.None? || e.blockedUntil.value == 0 || e.blockedUntil.value < now) && e.resetTime < now
  }

  // ---------------------------------------------------------------------
  // Properties of one request
  // ---------------------------------------------------------------------

  /** A blocked key is refused before anything else and its count does not
      move. */
  lemma BlockedNotCounted(cfg: LimiterConfig, e: IpEntry, now: int)
    requires Blocking(e, now)
    ensures Step(cfg, e, now).outcome.Blocked? && Step(cfg, e, now).entry == e
    ensures Step(cfg, e, now).outcome.retryAfterSeconds >= 1
  {
  }

  /** Every request that is not blocked is counted exactly once, after a
      reset of the window if it is over; the Remaining header is
      `max(0, max - count)` and never negative; the request passes exactly
      when the new count is within the limit, and otherwise blocks the key. */
  lemma CountedOnce(cfg: LimiterConfig, e: IpEntry, now: int)
    requires !Blocking(e, now)
    ensures var r := Step(cfg, e, now);
      var reset := now > e.resetTime;
      && r.entry.count == (if reset then 0 else e.count) + 1
      && r.entry.resetTime == (if reset then now + cfg.timeWindow * 1000 else e.resetTime)
      && !r.outcome.Blocked?
      && r.outcome.headers.remaining == Max0(cfg.maxRequests - r.entry.count) >= 0
      && r.outcome.headers.limit == cfg.maxRequests
      && (r.outcome.Passed? <==> r.entry.count <= cfg.maxRequests)
      && r.entry.blockedUntil == (if r.outcome.Passed? then e.blockedUntil
                                  else Some(now + cfg.blockDuration * 1000))
  {
  }

  /** The results of a run of requests on one key, all through one limiter. */
  function Run(cfg: LimiterConfig, e: IpEntry, times: seq<int>): (r: (nat, IpEntry))
    decreases |times|
  {
    if times == [] then (0, e)
    else
      var h := Step(cfg, e, times[0]);
      var rest := Run(cfg, h.entry, times[1..]);
      ((if h.outcome.Passed? then 1 else 0) + rest.0, rest.1)
  }

  /** Within one window (no request after the window's reset time), no more
      than `max` requests pass, counting those already counted. */
  lemma {:induction false} AtMostMaxPerWindow(cfg: LimiterConfig, e: IpEntry, times: seq<int>)
    requires forall k | 0 <= k < |times| :: times[k] <= e.resetTime
    ensures Run(cfg, e, times).0 <= Max0(cfg.maxRequests - e.count)
    decreases |times|
  {
    if times != [] {
      var h := Step(cfg, e, times[0]);
      assert h.entry.resetTime == e.resetTime;
      AtMostMaxPerWindow(cfg, h.entry, times[1..]);
    }
  }

  /** The limiters share one store: a request through the API limiter and
      then one through the strict limiter, for the same key and window,
      both count against that key. */
  lemma SharedStoreAccumulates(e: IpEntry, t1: int, t2: int)
    requires !Blocking(e, t1) && t1 <= t2 <= e.resetTime
    requires 0 <= e.count < ApiLimiter.maxRequests
    ensures var first := Step(ApiLimiter, e, t1);
      first.outcome.Passed? && Step(StrictLimiter, first.entry, t2).entry.count == e.count + 2
  {
    assert Step(ApiLimiter, e, t1).entry.blockedUntil == e.blockedUntil;
  }

  /** An entry eviction would remove behaves, for any later request, like
      the new entry that replaces it. */
  lemma EvictionUnobservable(cfg: LimiterConfig, e: IpEntry, t: int, now: int)
    requires cfg.timeWindow >= 0 && Evictable(e, t) && t <= now
    ensures Step(cfg, e, now).outcome == Step(cfg, NewEntry(cfg, now), now).outcome
  {
  }

  // ---------------------------------------------------------------------
  // The store
  // ---------------------------------------------------------------------

  /** The module-level `ip_store`. */
  class IpStore {
    var entries: map<string, IpEntry>

    constructor ()
      ensures entries == map[]
    {
      entries := map[];
    }

    /** The closure returned by `create_rate_limiter(cfg)`, for a request
        from `key`. */
    method Handle(cfg: LimiterConfig, key: string, now: int) returns (outcome: Outcome)
      modifies this
      ensures var h := Step(cfg, EntryOrNew(old(entries), cfg, key, now), now);
        outcome == h.outcome && entries == old(entries)[key := h.entry]
    {
      if key !in entries {
        entries := entries[key := NewEntry(cfg, now)];
      }
      var e := entries[key];
      if e.blockedUntil.Some? && e.blockedUntil.value != 0 && now < e.blockedUntil.value {
        return Blocked(CeilDiv(e.blockedUntil.value - now, 1000));
      }
      if now > e.resetTime {
        e := e.(count := 0, resetTime := now + cfg.timeWindow * 1000);
      }
      e := e.(count := e.count + 1);
      var headers := Headers(cfg.maxRequests, Max0(cfg.maxRequests - e.count), CeilDiv(e.resetTime, 1000));
      if e.count > cfg.maxRequests {
        e := e.(blockedUntil := Some(now + cfg.blockDuration * 1000));
        entries := entries[key := e];
        return Limited(headers, cfg.blockDuration);
      }
      entries := entries[key := e];
      outcome := Passed(headers);
    }

    /** The body of the periodic eviction timer. */
    method Evict(now: int)
      modifies this
      ensures entries.Keys <= old(entries).Keys
      ensures forall key | key in old(entries) :: (key in entries <==> !Evictable(old(entries)[key], now))
      ensures forall key | key in entries :: entries[key] == old(entries)[key]
    {
      var pending := entries.Keys;
      while pending != {}
        invariant pending <= old(entries).Keys && entries.Keys <= old(entries).Keys
        invariant forall key | key in entries :: entries[key] == old(entries)[key]
        invariant forall key | key in old(entries) && key !in pending :: (key in entries <==> !Evictable(old(entries)[key], now))
        invariant forall key | key in pending :: key in entries
        decreases pending
      {
        var key :| key in pending;
        if Evictable(entries[key], now) {
          entries := entries - {key};
        }
        pending := pending - {key};
      }
    }
  }
}
