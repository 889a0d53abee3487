/** The idle-conversation reaper: a start/stop interval timer and the sweep
    it runs. The sweep's query and each conversation's deletion may fail;
    `now` is an argument, in milliseconds. */
module ConversationMonitoring {
  import opened Common
  import opened Transport
  import opened ConversationStore

  const IdleTimeout: int := 60 * 1000
  const CheckInterval: int := 10 * 1000

  /** The query `{is_active: true, last_activity: {$lt: now - IdleTimeout}}`. */
  predicate Idle(c: Conversation, now: int) {
    c.isActive && c.lastActivity < now - IdleTimeout
  }

  /** The ids of the matching conversations below `bound`, from `from` on,
      in natural (ascending id) order. */
  function SelectIdle(conversations: map<ConvId, Conversation>, now: int, from: nat, bound: nat): (r: seq<ConvId>)
    decreases bound - from
    ensures forall c :: c in r <==> from <= c < bound && c in conversations && Idle(conversations[c], now)
    ensures forall k | 0 <= k < |r| :: from <= r[k] < bound
    ensures forall a, b | 0 <= a < b < |r| :: r[a] < r[b]
  {
    if from >= bound then []
    else if from in conversations && Idle(conversations[from], now) then [from] + SelectIdle(conversations, now, from + 1, bound)
    else SelectIdle(conversations, now, from + 1, bound)
  }

  /** One `conversation-timeout` per connected participant, in order. */
  function TimeoutNotices(participants: seq<Id>, live: set<Id>, c: ConvId): seq<Emission>
    decreases |participants|
  {
    if participants == [] then []
    else
      var p := participants[|participants| - 1];
      TimeoutNotices(participants[..|participants| - 1], live, c) +
      (if p in live then [ToSocket(p, ConversationTimeout(c))] else [])
  }

  /** The notices of the whole sweep, conversation by conversation. */
  function SweepNotices(conversations: map<ConvId, Conversation>, ids: seq<ConvId>, live: set<Id>): seq<Emission>
    requires forall k | 0 <= k < |ids| :: ids[k] in conversations
    decreases |ids|
  {
    if ids == [] then []
    else
      var c := ids[|ids| - 1];
      SweepNotices(conversations, ids[..|ids| - 1], live) + TimeoutNotices(conversations[c].participants, live, c)
  }

  /** The conversations among the first `n` whose record was deleted. */
  function RecordsDeleted(ids: seq<ConvId>, outcome: nat -> EndOutcome, n: nat): set<ConvId>
    requires n <= |ids|
  {
    if n == 0 then {}
    else RecordsDeleted(ids, outcome, n - 1) + (if outcome(n - 1) == Ended then {ids[n - 1]} else {})
  }

  /** The conversations among the first `n` whose messages were deleted. */
  function MessagesDeleted(ids: seq<ConvId>, outcome: nat -> EndOutcome, n: nat): set<ConvId>
    requires n <= |ids|
  {
    if n == 0 then {}
    else MessagesDeleted(ids, outcome, n - 1) + (if outcome(n - 1) != MessagesDeleteFailed then {ids[n - 1]} else {})
  }

  /** A record is gone exactly when one of its deletions succeeded in full;
      its messages are gone exactly when one of its deletions got past the
      message step. */
  lemma {:induction false} DeletedExact(ids: seq<ConvId>, outcome: nat -> EndOutcome, n: nat, c: ConvId)
    requires n <= |ids|
    ensures c in RecordsDeleted(ids, outcome, n) <==> exists k | 0 <= k < n :: ids[k] == c && outcome(k) == Ended
    ensures c in MessagesDeleted(ids, outcome, n) <==>
            exists k | 0 <= k < n :: ids[k] == c && outcome(k) != MessagesDeleteFailed
  {
    if n > 0 {
      DeletedExact(ids, outcome, n - 1, c);
    }
  }

  /** Socket `p` was told that conversation `c` timed out. */
  predicate TimedOut(notices: seq<Emission>, p: Id, c: ConvId) {
    ToSocket(p, ConversationTimeout(c)) in notices
  }

  lemma {:induction false} TimeoutNoticesExact(participants: seq<Id>, live: set<Id>, c: ConvId)
    ensures forall e | e in TimeoutNotices(participants, live, c) :: e.ToSocket? && e.event == ConversationTimeout(c)
    ensures forall p :: TimedOut(TimeoutNotices(participants, live, c), p, c) <==> p in participants && p in live
    decreases |participants|
  {
    if participants != [] {
      var prefix := participants[..|participants| - 1];
      TimeoutNoticesExact(prefix, live, c);
      assert participants == prefix + [participants[|participants| - 1]];
    }
  }

  /** The sweep only ever sends `conversation-timeout` (never `waiting`), and
      it sends it to socket `p` about conversation `c` exactly when `c` was
      selected and `p` is one of its connected participants. */
  lemma {:induction false} SweepNoticesExact(conversations: map<ConvId, Conversation>, ids: seq<ConvId>, live: set<Id>)
    requires forall k | 0 <= k < |ids| :: ids[k] in conversations
    ensures forall e | e in SweepNotices(conversations, ids, live) :: e.ToSocket? && e.event.ConversationTimeout?
    ensures forall p, c :: TimedOut(SweepNotices(conversations, ids, live), p, c) <==>
                           c in ids && p in conversations[c].participants && p in live
    decreases |ids|
  {
    if ids != [] {
      var prefix, c := ids[..|ids| - 1], ids[|ids| - 1];
      SweepNoticesExact(conversations, prefix, live);
      TimeoutNoticesExact(conversations[c].participants, live, c);
      assert ids == prefix + [c];
      var before, last := SweepNotices(conversations, prefix, live), TimeoutNotices(conversations[c].participants, live, c);
      assert SweepNotices(conversations, ids, live) == before + last;
      forall p, c' ensures TimedOut(SweepNotices(conversations, ids, live), p, c') <==>
                           c' in ids && p in conversations[c'].participants && p in live
      {
        var e := ToSocket(p, ConversationTimeout(c'));
        assert c' in ids <==> c' in prefix || c' == c;
        assert e in before + last <==> e in before || e in last;
        if c' != c {
          assert e !in last;
        }
        assert TimedOut(before, p, c') <==> c' in prefix && p in conversations[c'].participants && p in live;
        assert c' == c ==> (TimedOut(last, p, c') <==> p in conversations[c'].participants && p in live);
      }
    }
  }

  /** The inner loop of the sweep: tell every connected participant of
      conversation `c` that it timed out. */
  method NotifyTimeout(io: Io, participants: seq<Id>, c: ConvId)
    modifies io
    ensures io.live == old(io.live) && io.rooms == old(io.rooms)
    ensures io.log == old(io.log) + TimeoutNotices(participants, old(io.live), c)
  {
    var n := 0;
    while n < |participants|
      invariant 0 <= n <= |participants|
      invariant io.live == old(io.live) && io.rooms == old(io.rooms)
      invariant io.log == old(io.log) + TimeoutNotices(participants[..n], io.live, c)
    {
      var p := participants[n];
      if p in io.live {
        io.Emit(p, ConversationTimeout(c));
      }
      assert participants[..n + 1][..n] == participants[..n];
      n := n + 1;
    }
    assert participants[..n] == participants;
  }

  /** Extending the sweep's effects by its k-th conversation. */
  lemma SweepStep(conversations: map<ConvId, Conversation>, ids: seq<ConvId>, outcome: nat -> EndOutcome, k: nat,
                  live: set<Id>)
    requires k < |ids| && forall n | 0 <= n < |ids| :: ids[n] in conversations
    ensures SweepNotices(conversations, ids[..k + 1], live) ==
            SweepNotices(conversations, ids[..k], live) + TimeoutNotices(conversations[ids[k]].participants, live, ids[k])
    ensures RecordsDeleted(ids, outcome, k + 1) ==
            RecordsDeleted(ids, outcome, k) + (if outcome(k) == Ended then {ids[k]} else {})
    ensures MessagesDeleted(ids, outcome, k + 1) ==
            MessagesDeleted(ids, outcome, k) + (if outcome(k) != MessagesDeleteFailed then {ids[k]} else {})
  {
    assert ids[..k + 1][..k] == ids[..k];
  }

  /** Removing two sets of keys one after the other removes their union. */
  lemma MinusUnion<K, V>(m: map<K, V>, a: set<K>, b: set<K>)
    ensures m - a - b == m - (a + b)
  {
    assert (m - a - b).Keys == (m - (a + b)).Keys;
  }

  /** The outer loop of the sweep: notify, then end, each selected
      conversation; a failed deletion does not stop the loop. */
  method EndEach(store: Store, io: Io, idle: seq<ConvId>, endOutcome: nat -> EndOutcome)
    requires store.Valid() && forall k | 0 <= k < |idle| :: idle[k] in store.conversations
    modifies store, io
    ensures store.Valid() && store.nextId == old(store.nextId)
    ensures io.live == old(io.live) && io.rooms == old(io.rooms)
    ensures io.log == old(io.log) + SweepNotices(old(store.conversations), idle, old(io.live))
    ensures store.conversations == old(store.conversations) - RecordsDeleted(idle, endOutcome, |idle|)
    ensures store.messages == old(store.messages) - MessagesDeleted(idle, endOutcome, |idle|)
  {
    var snapshot := store.conversations;
    ghost var records, dropped := {}, {};
    var k := 0;
    while k < |idle|
      invariant 0 <= k <= |idle|
      invariant store.Valid() && store.nextId == old(store.nextId)
      invariant io.live == old(io.live) && io.rooms == old(io.rooms)
      invariant io.log == old(io.log) + SweepNotices(snapshot, idle[..k], io.live)
      invariant records == RecordsDeleted(idle, endOutcome, k) && dropped == MessagesDeleted(idle, endOutcome, k)
      invariant store.conversations == snapshot - records
      invariant store.messages == old(store.messages) - dropped
    {
      var c := idle[k];
      ghost var before, notices := SweepNotices(snapshot, idle[..k], io.live), TimeoutNotices(snapshot[c].participants, io.live, c);
      ghost var conversations0, messages0 := store.conversations, store.messages;
      NotifyTimeout(io, snapshot[c].participants, c);
      ghost var log := io.log;
      assert log == old(io.log) + (before + notices);
      var _ := store.End(c, endOutcome(k));
      assert io.log == log;
      ghost var ended := if endOutcome(k) == Ended then {c} else {};
      ghost var cleared := if endOutcome(k) != MessagesDeleteFailed then {c} else {};
      assert store.conversations == conversations0 - ended;
      assert store.messages == messages0 - cleared;
      SweepStep(snapshot, idle, endOutcome, k, io.live);
      MinusUnion(snapshot, records, ended);
      MinusUnion(old(store.messages), dropped, cleared);
      records, dropped := records + ended, dropped + cleared;
      k := k + 1;
    }
    assert idle[..k] == idle;
  }

  class ConversationMonitor {
    /** `interval_id`: the handle of the running interval, if any. */
    var intervalId: Option<nat>
    /** The intervals this monitor has set and not cleared. */
    var timers: set<nat>
    /** The handle the next `setInterval` returns. */
    var nextHandle: nat

    /** The only interval left running is the one `intervalId` names. */
    ghost predicate Valid()
      reads this
    {
      && timers == (if intervalId.Some? then {intervalId.value} else {})
      && forall h | h in timers :: h < nextHandle
    }

    constructor ()
      ensures Valid() && intervalId.None? && timers == {}
    {
      intervalId, timers, nextHandle := None, {}, 0;
    }

    /** `start()`: clear any running interval, then set a new one; at most
        one interval is ever running. */
    method Start()
      requires Valid()
      modifies this
      ensures Valid() && intervalId == Some(old(nextHandle)) && timers == {old(nextHandle)}
      ensures old(intervalId).Some? ==> old(intervalId).value !in timers
    {
      if intervalId.Some? {
        timers := timers - {intervalId.value};
      }
      intervalId := Some(nextHandle);
      timers := timers + {nextHandle};
      nextHandle := nextHandle + 1;
    }

    /** `stop()`: clear the running interval, if any; otherwise do nothing. */
    method Stop()
      requires Valid()
      modifies this
      ensures Valid() && intervalId.None? && timers == {}
      ensures old(intervalId).None? ==> nextHandle == old(nextHandle)
    {
      if intervalId.Some? {
        timers := timers - {intervalId.value};
        intervalId := None;
      }
    }

    /** `check_idle_conversations()`. The k-th selected conversation's
        deletion ends with `endOutcome(k)`; a failure there is caught and
        the loop goes on. The waiting queue is not touched. */
    method CheckIdleConversations(store: Store, io: Io, now: int, queryOk: bool, endOutcome: nat -> EndOutcome)
      requires store.Valid()
      modifies store, io
      ensures store.Valid() && store.nextId == old(store.nextId)
      ensures io.live == old(io.live) && io.rooms == old(io.rooms)
      ensures !queryOk ==> io.log == old(io.log) && store.conversations == old(store.conversations) &&
                           store.messages == old(store.messages)
      ensures queryOk ==>
        var ids := SelectIdle(old(store.conversations), now, 0, old(store.nextId));
        && io.log == old(io.log) + SweepNotices(old(store.conversations), ids, old(io.live))
        && store.conversations == old(store.conversations) - RecordsDeleted(ids, endOutcome, |ids|)
        && store.messages == old(store.messages) - MessagesDeleted(ids, endOutcome, |ids|)
    {
      if !queryOk {
        return;
      }
      var idle := SelectIdle(store.conversations, now, 0, store.nextId);
      EndEach(store, io, idle, endOutcome);
    }
  }
}
