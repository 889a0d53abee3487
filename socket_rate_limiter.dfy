/** The per-socket message throttle: a window of recent message times, a
    minimum gap between messages and a temporary block. Times are integer
    milliseconds and `now` is an argument. */
module SocketRateLimit {
  import opened Common

  const Window: int := 60 * 1000
  const MaxMessages: int := 30
  const MinInterval: int := 500
  const BlockDuration: int := 30 * 1000
  const CleanupInterval: int := 15 * 60 * 1000

  /** One `socket_store` entry; `blockedUntil` is an optional field. */
  datatype RateEntry = RateEntry(messageCount: int, lastReset: int, timestamps: seq<int>, blockedUntil: Option<int>)

  /** The entry a socket gets on connection or on its first message. */
  function Fresh(now: int): RateEntry {
    RateEntry(0, now, [], None)
  }

  /** JavaScript truthiness of the optional `blocked_until`: absent and 0
      are both false. */
  predicate Truthy(b: Option<int>) {
    b.Some? && b.value != 0
  }

  /** The entry is blocking at `now`. */
  predicate Blocking(e: RateEntry, now: int) {
    Truthy(e.blockedUntil) && now < e.blockedUntil.value
  }

  /** The most recent message time, 0 when there is none. */
  function LastOr0(ts: seq<int>): int {
    if |ts| > 0 then ts[|ts| - 1] else 0
  }

  /** `timestamps.filter(t => now - t < Window)` */
  function Recent(ts: seq<int>, now: int): (r: seq<int>)
    ensures |r| <= |ts|
    ensures forall t :: t in r <==> t in ts && now - t < Window
  {
    if ts == [] then []
    else if now - ts[0] < Window then [ts[0]] + Recent(ts[1..], now)
    else Recent(ts[1..], now)
  }

  /** Whether the message was refused, and the entry afterwards. */
  datatype Verdict = Verdict(limited: bool, entry: RateEntry)

  /** `should_rate_limit_message` on one (already initialised) entry. */
  function Throttle(e: RateEntry, now: int): Verdict {
    if Blocking(e, now) then Verdict(true, e)
    else
      var e1 := if now - e.lastReset > Window then e.(messageCount := 0, lastReset := now, timestamps := []) else e;
      if now - LastOr0(e1.timestamps) < MinInterval then
        Verdict(true, e1.(blockedUntil := Some(now + BlockDuration)))
      else
        var ts := Recent(e1.timestamps + [now], now);
        var e2 := e1.(timestamps := ts, messageCount := |ts|);
        if |ts| > MaxMessages then Verdict(true, e2.(blockedUntil := Some(now + BlockDuration)))
        else Verdict(false, e2)
  }

  /** The entry the throttle works on: the stored one, or a fresh one. */
  function EntryOrFresh(entries: map<Id, RateEntry>, id: Id, now: int): RateEntry {
    if id in entries then entries[id] else Fresh(now)
  }

  /** Periodic eviction removes an entry idle for more than 15 minutes whose
      block is absent or over. */
  predicate Stale(e: RateEntry, now: int) {
    now - e.lastReset > CleanupInterval && (!Truthy(e.blockedUntil) || e.blockedUntil.value < now)
  }

  // ---------------------------------------------------------------------
  // Properties of the throttle
  // ---------------------------------------------------------------------

  /** While blocked, a message is refused and the entry is left as it is. */
  lemma BlockedLeavesEntry(e: RateEntry, now: int)
    requires Blocking(e, now)
    ensures Throttle(e, now) == Verdict(true, e)
  {
  }

  /** A message less than 500 ms after the last recorded one (after any
      window reset) is refused, blocks for 30 s and is not recorded. */
  lemma TooSoonIsBlocked(e: RateEntry, now: int)
    requires !Blocking(e, now) && now - e.lastReset <= Window
    requires now - LastOr0(e.timestamps) < MinInterval
    ensures var v := Throttle(e, now);
      v.limited && v.entry == e.(blockedUntil := Some(now + BlockDuration))
  {
  }

  /** Past the gap check, the message is recorded last, every recorded time
      lies inside the window and the count equals the number of recorded
      times; the message is accepted exactly when that count is at most 30,
      and otherwise blocks for 30 s. */
  lemma {:induction false} RecordedWindow(e: RateEntry, now: int)
    requires !Blocking(e, now)
    requires var last := if now - e.lastReset > Window then 0 else LastOr0(e.timestamps);
      now - last >= MinInterval
    ensures var v := Throttle(e, now);
      && |v.entry.timestamps| > 0 && v.entry.timestamps[|v.entry.timestamps| - 1] == now
      && (forall t | t in v.entry.timestamps :: now - t < Window)
      && v.entry.messageCount == |v.entry.timestamps|
      && (v.limited <==> |v.entry.timestamps| > MaxMessages)
      && v.entry.blockedUntil == (if v.limited then Some(now + BlockDuration) else e.blockedUntil)
  {
    var e1 := if now - e.lastReset > Window then e.(messageCount := 0, lastReset := now, timestamps := []) else e;
    RecentKeepsLast(e1.timestamps, now);
  }

  lemma {:induction false} RecentKeepsLast(ts: seq<int>, now: int)
    ensures var r := Recent(ts + [now], now);
      |r| > 0 && r[|r| - 1] == now
  {
    if ts == [] {
      assert Recent([now], now) == [now] + Recent([], now);
    } else {
      assert (ts + [now])[0] == ts[0] && (ts + [now])[1..] == ts[1..] + [now];
      RecentKeepsLast(ts[1..], now);
    }
  }

  /** An accepted message leaves at most 30 recorded messages in the window. */
  lemma AcceptedWithinLimit(e: RateEntry, now: int)
    requires !Throttle(e, now).limited
    ensures |Throttle(e, now).entry.timestamps| <= MaxMessages
    ensures Throttle(e, now).entry.messageCount == |Throttle(e, now).entry.timestamps|
  {
  }

  /** A 31st message within the window is refused, and still recorded. */
  lemma ThirtyFirstRefused(e: RateEntry, now: int)
    requires !Blocking(e, now) && now - e.lastReset <= Window
    requires |e.timestamps| == MaxMessages && now - LastOr0(e.timestamps) >= MinInterval
    requires forall k | 0 <= k < |e.timestamps| :: now - e.timestamps[k] < Window
    ensures Throttle(e, now).limited
    ensures Throttle(e, now).entry.timestamps == e.timestamps + [now]
  {
    RecentAll(e.timestamps + [now], now);
  }

  lemma {:induction false} RecentAll(ts: seq<int>, now: int)
    requires forall k | 0 <= k < |ts| :: now - ts[k] < Window
    ensures Recent(ts, now) == ts
  {
    if ts != [] {
      RecentAll(ts[1..], now);
    }
  }

  /** Two messages less than 500 ms apart, with no window reset due in
      between, cannot both be accepted. */
  lemma SecondQuickMessageRefused(e: RateEntry, t1: int, t2: int)
    requires !Throttle(e, t1).limited
    requires t1 <= t2 < t1 + MinInterval
    requires t2 - Throttle(e, t1).entry.lastReset <= Window
    ensures Throttle(Throttle(e, t1).entry, t2).limited
  {
    var e1 := Throttle(e, t1).entry;
    RecordedWindow(e, t1);
    assert LastOr0(e1.timestamps) == t1;
  }

  /** The reset of a fixed window also forgets the last message time, so
      the 500 ms gap is not enforced across a reset: two messages 1 ms apart
      are both accepted. */
  lemma GapNotEnforcedAcrossReset()
    ensures var first := Throttle(RateEntry(0, 0, [], None), 60000);
      && !first.limited
      && !Throttle(first.entry, 60001).limited
  {
    assert Recent([60000], 60000) == [60000];
    assert Recent([60001], 60001) == [60001];
  }

  /** Recorded times are at least 500 ms apart. */
  predicate Spaced(ts: seq<int>) {
    forall a, b | 0 <= a < b < |ts| :: ts[a] + MinInterval <= ts[b]
  }

  lemma {:induction false} RecentSpaced(ts: seq<int>, now: int)
    requires Spaced(ts)
    ensures Spaced(Recent(ts, now))
  {
    if ts != [] {
      assert Spaced(ts[1..]) by {
        forall a, b | 0 <= a < b < |ts[1..]| ensures ts[1..][a] + MinInterval <= ts[1..][b] {
          assert ts[1..][a] == ts[a + 1] && ts[1..][b] == ts[b + 1];
        }
      }
      RecentSpaced(ts[1..], now);
      if now - ts[0] < Window {
        var rest := Recent(ts[1..], now);
        forall b | 0 <= b < |rest| ensures ts[0] + MinInterval <= rest[b] {
          assert rest[b] in ts[1..];
        }
      }
    }
  }

  /** The throttle keeps the recorded times at least 500 ms apart. */
  lemma ThrottleKeepsSpacing(e: RateEntry, now: int)
    requires Spaced(e.timestamps)
    ensures Spaced(Throttle(e, now).entry.timestamps)
  {
    if !Blocking(e, now) {
      var e1 := if now - e.lastReset > Window then e.(messageCount := 0, lastReset := now, timestamps := []) else e;
      if now - LastOr0(e1.timestamps) >= MinInterval {
        var ts := e1.timestamps + [now];
        assert Spaced(ts) by {
          forall a, b | 0 <= a < b < |ts| ensures ts[a] + MinInterval <= ts[b] {
            if b == |ts| - 1 && a < |ts| - 2 {
              assert ts[a] + MinInterval <= ts[|ts| - 2];
            }
          }
        }
        RecentSpaced(ts, now);
      }
    }
  }

  /** An entry eviction would remove behaves, for the next message, like
      the fresh entry that replaces it. */
  lemma EvictionUnobservable(e: RateEntry, now: int)
    requires Stale(e, now)
    ensures Throttle(e, now).limited == Throttle(Fresh(now), now).limited
  {
  }

  // ---------------------------------------------------------------------
  // The store
  // ---------------------------------------------------------------------

  /** The module-level `socket_store`. */
  class SocketRateStore {
    var entries: map<Id, RateEntry>

    constructor ()
      ensures entries == map[]
    {
      entries := map[];
    }

    /** `socket_rate_limiter(socket)`: every connection starts with a fresh
        entry and is admitted. */
    method Admit(id: Id, now: int) returns (refused: bool)
      modifies this
      ensures !refused
      ensures entries == old(entries)[id := Fresh(now)]
    {
      entries := entries[id := Fresh(now)];
      refused := false;
    }

    /** `should_rate_limit_message(id)` */
    method ShouldRateLimitMessage(id: Id, now: int) returns (limited: bool)
      modifies this
      ensures var v := Throttle(EntryOrFresh(old(entries), id, now), now);
        limited == v.limited && entries == old(entries)[id := v.entry]
    {
      if id !in entries {
        entries := entries[id := Fresh(now)];
      }
      var e := entries[id];
      if Truthy(e.blockedUntil) && now < e.blockedUntil.value {
        return true;
      }
      if now - e.lastReset > Window {
        e := e.(messageCount := 0, lastReset := now, timestamps := []);
      }
      var last := if |e.timestamps| > 0 then e.timestamps[|e.timestamps| - 1] else 0;
      if now - last < MinInterval {
        e := e.(blockedUntil := Some(now + BlockDuration));
        entries := entries[id := e];
        return true;
      }
      var ts := Recent(e.timestamps + [now], now);
      e := e.(timestamps := ts, messageCount := |ts|);
      limited := false;
      if e.messageCount > MaxMessages {
        e := e.(blockedUntil := Some(now + BlockDuration));
        limited := true;
      }
      entries := entries[id := e];
    }

    /** `cleanup_socket_store(id)` */
    method Cleanup(id: Id)
      modifies this
      ensures entries == old(entries) - {id}
    {
      if id in entries {
        entries := entries - {id};
      }
    }

    /** The body of the periodic eviction timer. */
    method Evict(now: int)
      modifies this
      ensures entries.Keys <= old(entries).Keys
      ensures forall id | id in old(entries) :: (id in entries <==> !Stale(old(entries)[id], now))
      ensures forall id | id in entries :: entries[id] == old(entries)[id]
    {
      var pending := entries.Keys;
      while pending != {}
        invariant pending <= old(entries).Keys && entries.Keys <= old(entries).Keys
        invariant forall id | id in entries :: entries[id] == old(entries)[id]
        invariant forall id | id in old(entries) && id !in pending :: (id in entries <==> !Stale(old(entries)[id], now))
        invariant forall id | id in pending :: id in entries
        decreases pending
      {
        var id :| id in pending;
        if Stale(entries[id], now) {
          entries := entries - {id};
        }
        pending := pending - {id};
      }
    }
  }
}
