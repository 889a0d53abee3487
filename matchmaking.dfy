/** The waiting queue and the three operations of `handle_new_user.ts`:
    `match_users`, `match_all_waiting_users` and `handle_new_user`. Each
    handler runs to completion; the outcome of every `create_conversation`
    call is an argument (`ok` for one call, `ok(k)` for the k-th call of a
    sweep). */
module Matchmaking {
  import opened Common
  import opened Pairing
  import opened Transport
  import opened ConversationStore
  import opened UserStates

  /** The module-level `waiting_queue` array, as socket ids. */
  class WaitingQueue {
    var entries: seq<Id>

    constructor ()
      ensures entries == []
    {
      entries := [];
    }
  }

  // ---------------------------------------------------------------------
  // What one `match_users(a, b)` call does; conversation `c` is the id the
  // store hands out if creation succeeds.
  // ---------------------------------------------------------------------

  function MatchEmissions(a: Id, b: Id, ok: bool, c: ConvId): seq<Emission> {
    if ok then [ToSocket(a, MatchedEvent(c, b)), ToSocket(b, MatchedEvent(c, a))]
    else [ToSocket(a, ErrorEvent(MatchFailed)), ToSocket(b, ErrorEvent(MatchFailed))]
  }

  function MatchRooms(rooms: map<ConvId, set<Id>>, a: Id, b: Id, ok: bool, c: ConvId): map<ConvId, set<Id>> {
    if ok then Joined(Joined(rooms, c, a), c, b) else rooms
  }

  function MatchStates(states: map<Id, UserState>, a: Id, b: Id, ok: bool): map<Id, UserState> {
    if ok then Updated(Updated(states, a, Some(Matched)), b, Some(Matched)) else states
  }

  function MatchConversations(conversations: map<ConvId, Conversation>, a: Id, b: Id, ok: bool, c: ConvId, now: int)
    : map<ConvId, Conversation>
  {
    if ok then conversations[c := Conversation([a, b], true, now)] else conversations
  }

  /** `match_users(a, b)`: on success both sockets learn the same new
      conversation id and each other's id, join its room and are marked
      matched; on failure both get an error and nothing else changes. */
  method MatchUsers(a: Id, b: Id, store: Store, io: Io, users: UserStateMap, now: int, ok: bool)
    returns (success: bool)
    requires store.Valid()
    modifies store, io, users
    ensures store.Valid() && success == ok
    ensures store.nextId == old(store.nextId) + (if ok then 1 else 0)
    ensures store.conversations == MatchConversations(old(store.conversations), a, b, ok, old(store.nextId), now)
    ensures store.messages == old(store.messages)
    ensures io.log == old(io.log) + MatchEmissions(a, b, ok, old(store.nextId))
    ensures io.rooms == MatchRooms(old(io.rooms), a, b, ok, old(store.nextId))
    ensures io.live == old(io.live)
    ensures users.states == MatchStates(old(users.states), a, b, ok)
  {
    var created := store.Create([a, b], now, ok);
    if created.None? {
      io.Emit(a, ErrorEvent(MatchFailed));
      io.Emit(b, ErrorEvent(MatchFailed));
      return false;
    }
    var c := created.value;
    io.Emit(a, MatchedEvent(c, b));
    io.Emit(b, MatchedEvent(c, a));
    io.Join(a, c);
    io.Join(b, c);
    users.Update(a, Some(Matched));
    users.Update(b, Some(Matched));
    success := true;
  }

  // ---------------------------------------------------------------------
  // The effects of a sweep: its calls, in order, applied one after another.
  // The successful calls take the ids start, start + 1, ...
  // ---------------------------------------------------------------------

  function SweepLog(q: seq<Id>, att: seq<Attempt>, start: ConvId): seq<Emission>
    requires InRange(q, att)
    decreases |att|
  {
    if att == [] then []
    else
      var prefix, a := att[..|att| - 1], att[|att| - 1];
      SweepLog(q, prefix, start) + MatchEmissions(q[a.i], q[a.j], a.ok, start + Successes(prefix))
  }

  function SweepRooms(rooms: map<ConvId, set<Id>>, q: seq<Id>, att: seq<Attempt>, start: ConvId): map<ConvId, set<Id>>
    requires InRange(q, att)
    decreases |att|
  {
    if att == [] then rooms
    else
      var prefix, a := att[..|att| - 1], att[|att| - 1];
      MatchRooms(SweepRooms(rooms, q, prefix, start), q[a.i], q[a.j], a.ok, start + Successes(prefix))
  }

  function SweepStates(states: map<Id, UserState>, q: seq<Id>, att: seq<Attempt>): map<Id, UserState>
    requires InRange(q, att)
    decreases |att|
  {
    if att == [] then states
    else
      var prefix, a := att[..|att| - 1], att[|att| - 1];
      MatchStates(SweepStates(states, q, prefix), q[a.i], q[a.j], a.ok)
  }

  function SweepConversations(conversations: map<ConvId, Conversation>, q: seq<Id>, att: seq<Attempt>,
                              start: ConvId, now: int): map<ConvId, Conversation>
    requires InRange(q, att)
    decreases |att|
  {
    if att == [] then conversations
    else
      var prefix, a := att[..|att| - 1], att[|att| - 1];
      MatchConversations(SweepConversations(conversations, q, prefix, start, now),
                         q[a.i], q[a.j], a.ok, start + Successes(prefix), now)
  }

  /** Unfolding the effect folds by one call: `att2` is `att` followed by
      `match_users(q[i], q[j])` with outcome `ok`. */
  lemma SweepStep(q: seq<Id>, att: seq<Attempt>, att2: seq<Attempt>, i: nat, j: nat, ok: bool, start: ConvId, now: int,
                  conversations: map<ConvId, Conversation>, rooms: map<ConvId, set<Id>>, states: map<Id, UserState>)
    requires i < j < |q| && InRange(q, att) && att2 == att + [Attempt(i, j, ok)]
    ensures InRange(q, att2)
    ensures Successes(att2) == Successes(att) + (if ok then 1 else 0)
    ensures SweepLog(q, att2, start) == SweepLog(q, att, start) + MatchEmissions(q[i], q[j], ok, start + Successes(att))
    ensures SweepRooms(rooms, q, att2, start) == MatchRooms(SweepRooms(rooms, q, att, start), q[i], q[j], ok, start + Successes(att))
    ensures SweepStates(states, q, att2) == MatchStates(SweepStates(states, q, att), q[i], q[j], ok)
    ensures SweepConversations(conversations, q, att2, start, now) ==
            MatchConversations(SweepConversations(conversations, q, att, start, now), q[i], q[j], ok, start + Successes(att), now)
  {
    LastCall(q, att, i, j, ok);
    assert SweepConversations(conversations, q, att2, start, now) ==
           MatchConversations(SweepConversations(conversations, q, att, start, now), q[i], q[j], ok, start + Successes(att), now) by {
      LastCall(q, att, i, j, ok);
    }
    assert SweepLog(q, att2, start) == SweepLog(q, att, start) + MatchEmissions(q[i], q[j], ok, start + Successes(att)) by {
      LastCall(q, att, i, j, ok);
    }
    assert SweepRooms(rooms, q, att2, start) == MatchRooms(SweepRooms(rooms, q, att, start), q[i], q[j], ok, start + Successes(att)) by {
      LastCall(q, att, i, j, ok);
    }
    assert SweepStates(states, q, att2) == MatchStates(SweepStates(states, q, att), q[i], q[j], ok) by {
      LastCall(q, att, i, j, ok);
    }
  }

  /** The last call of `att + [Attempt(i, j, ok)]` and the calls before it. */
  lemma LastCall(q: seq<Id>, att: seq<Attempt>, i: nat, j: nat, ok: bool)
    requires i < j < |q| && InRange(q, att)
    ensures var att' := att + [Attempt(i, j, ok)];
      && InRange(q, att') && att'[..|att'| - 1] == att && att'[|att'| - 1] == Attempt(i, j, ok)
  {
  }

  /** The sweep marks exactly the ids it paired as matched and leaves every
      other user-state entry alone. */
  lemma {:induction false} SweepMarksMatched(states: map<Id, UserState>, q: seq<Id>, att: seq<Attempt>)
    requires InRange(q, att)
    ensures var r := SweepStates(states, q, att);
      && (forall x | x in MatchedBy(q, att) :: x in r && r[x] == Matched)
      && (forall x | x !in MatchedBy(q, att) :: (x in r <==> x in states) && (x in r ==> r[x] == states[x]))
    decreases |att|
  {
    if att != [] {
      SweepMarksMatched(states, q, att[..|att| - 1]);
    }
  }

  /** The sweep adds one active two-party conversation, with fresh
      consecutive ids, per successful pairing, and changes no existing one. */
  lemma {:induction false} SweepCreatesOnePerPairing(conversations: map<ConvId, Conversation>, q: seq<Id>,
                                                     att: seq<Attempt>, start: ConvId, now: int)
    requires InRange(q, att)
    requires forall c | c in conversations :: c < start
    ensures var r := SweepConversations(conversations, q, att, start, now);
      && (forall c :: c in r <==> c in conversations || start <= c < start + Successes(att))
      && (forall c | c in conversations :: r[c] == conversations[c])
      && (forall c | c in r && c !in conversations ::
            r[c].isActive && r[c].lastActivity == now && |r[c].participants| == 2)
    decreases |att|
  {
    if att != [] {
      SweepCreatesOnePerPairing(conversations, q, att[..|att| - 1], start, now);
    }
  }

  /** The shared state equals the state the sweep started from with the
      effects of the calls `att` applied. */
  ghost predicate Reflects(q: seq<Id>, att: seq<Attempt>, start: ConvId, now: int,
                           conversations0: map<ConvId, Conversation>, rooms0: map<ConvId, set<Id>>,
                           states0: map<Id, UserState>, log0: seq<Emission>,
                           store: Store, io: Io, users: UserStateMap)
    reads store, io, users
    requires InRange(q, att)
  {
    && store.Valid()
    && store.nextId == start + Successes(att)
    && store.conversations == SweepConversations(conversations0, q, att, start, now)
    && io.log == log0 + SweepLog(q, att, start)
    && io.rooms == SweepRooms(rooms0, q, att, start)
    && users.states == SweepStates(states0, q, att)
  }

  /** One `match_users(q[i], q[j])` call of the sweep, recorded as the
      next attempt. */
  method TryPair(q: seq<Id>, i: nat, j: nat, ghost attempts0: seq<Attempt>, calls: nat,
                 store: Store, io: Io, users: UserStateMap, now: int, ok: nat -> bool,
                 ghost start: ConvId, ghost conversations0: map<ConvId, Conversation>,
                 ghost rooms0: map<ConvId, set<Id>>, ghost states0: map<Id, UserState>, ghost log0: seq<Emission>)
    returns (success: bool, ghost attempts: seq<Attempt>)
    requires i < j < |q| && calls == |attempts0| && InRange(q, attempts0)
    requires Reflects(q, attempts0, start, now, conversations0, rooms0, states0, log0, store, io, users)
    modifies store, io, users
    ensures success == ok(calls) && attempts == attempts0 + [Attempt(i, j, success)] && InRange(q, attempts)
    ensures Reflects(q, attempts, start, now, conversations0, rooms0, states0, log0, store, io, users)
    ensures store.messages == old(store.messages) && io.live == old(io.live)
  {
    success := MatchUsers(q[i], q[j], store, io, users, now, ok(calls));
    attempts := attempts0 + [Attempt(i, j, success)];
    SweepStep(q, attempts0, attempts, i, j, success, start, now, conversations0, rooms0, states0);
  }

  /** The inner loop of the sweep: look for a partner for `q[i]` among the
      later entries not matched yet, stopping at the first successful call. */
  method FindPartner(q: seq<Id>, i: nat, matched0: set<Id>, ghost attempts0: seq<Attempt>, calls0: nat,
                     store: Store, io: Io, users: UserStateMap, now: int, ok: nat -> bool,
                     ghost start: ConvId, ghost conversations0: map<ConvId, Conversation>,
                     ghost rooms0: map<ConvId, set<Id>>, ghost states0: map<Id, UserState>, ghost log0: seq<Emission>)
    returns (matched: set<Id>, ghost attempts: seq<Attempt>, calls: nat)
    requires i < |q| && q[i] !in matched0 && calls0 == |attempts0|
    requires Partial(q, i, Pass(matched0, attempts0))
    requires Reflects(q, attempts0, start, now, conversations0, rooms0, states0, log0, store, io, users)
    modifies store, io, users
    ensures calls == |attempts| && Pass(matched, attempts) == PartnerSearch(q, ok, i, i + 1, Pass(matched0, attempts0))
    ensures Shaped(q, i + 1, Pass(matched, attempts))
    ensures Reflects(q, attempts, start, now, conversations0, rooms0, states0, log0, store, io, users)
    ensures store.messages == old(store.messages) && io.live == old(io.live)
  {
    matched, attempts, calls := matched0, attempts0, calls0;
    var j := i + 1;
    var paired := false;
    while j < |q| && !paired
      invariant i < j <= |q| && calls == |attempts|
      invariant !paired ==> PartnerSearch(q, ok, i, j, Pass(matched, attempts)) == PartnerSearch(q, ok, i, i + 1, Pass(matched0, attempts0))
      invariant paired ==> Pass(matched, attempts) == PartnerSearch(q, ok, i, i + 1, Pass(matched0, attempts0))
      invariant InRange(q, attempts)
      invariant Reflects(q, attempts, start, now, conversations0, rooms0, states0, log0, store, io, users)
      invariant store.messages == old(store.messages) && io.live == old(io.live)
      decreases |q| - j
    {
      if q[j] !in matched {
        var success;
        success, attempts := TryPair(q, i, j, attempts, calls, store, io, users, now, ok,
                                     start, conversations0, rooms0, states0, log0);
        calls := calls + 1;
        if success {
          matched := matched + {q[i], q[j]};
          paired := true;
        }
      }
      j := j + 1;
    }
    PartnerSearchShaped(q, ok, i, i + 1, Pass(matched0, attempts0));
  }

  /** `match_all_waiting_users()`: prune the sockets that are gone, pair the
      rest greedily in queue order, then drop every paired id. */
  method MatchAllWaitingUsers(queue: WaitingQueue, store: Store, io: Io, users: UserStateMap, now: int, ok: nat -> bool)
    requires store.Valid()
    modifies queue, store, io, users
    ensures store.Valid() && store.messages == old(store.messages) && io.live == old(io.live)
    ensures var pruned := Restrict(old(queue.entries), old(io.live));
      var p := Sweep(pruned, ok);
      && InRange(pruned, p.attempts)
      && queue.entries == SweepRemaining(pruned, ok)
      && store.nextId == old(store.nextId) + Successes(p.attempts)
      && store.conversations == SweepConversations(old(store.conversations), pruned, p.attempts, old(store.nextId), now)
      && io.log == old(io.log) + SweepLog(pruned, p.attempts, old(store.nextId))
      && io.rooms == SweepRooms(old(io.rooms), pruned, p.attempts, old(store.nextId))
      && users.states == SweepStates(old(users.states), pruned, p.attempts)
  {
    var q := Restrict(queue.entries, io.live);
    queue.entries := q;
    ghost var start := store.nextId;
    ghost var conversations0, rooms0, states0, log0 := store.conversations, io.rooms, users.states, io.log;
    var matched: set<Id> := {};
    ghost var attempts: seq<Attempt> := [];
    var calls := 0;
    var i := 0;
    while i < |q|
      invariant 0 <= i <= |q| && calls == |attempts|
      invariant Shaped(q, i, Pass(matched, attempts))
      invariant SweepFrom(q, ok, i, Pass(matched, attempts)) == Sweep(q, ok)
      invariant Reflects(q, attempts, start, now, conversations0, rooms0, states0, log0, store, io, users)
      invariant store.messages == old(store.messages) && io.live == old(io.live)
      invariant queue.entries == q
    {
      if q[i] !in matched {
        matched, attempts, calls := FindPartner(q, i, matched, attempts, calls, store, io, users, now, ok,
                                                start, conversations0, rooms0, states0, log0);
      }
      i := i + 1;
    }
    queue.entries := Exclude(q, matched);
  }

  /** `handle_new_user(id)`: ignore an id that is already waiting; otherwise
      pair it at once with the earliest connected waiting socket, or, if
      there is none, drop the disconnected entries, append it, tell it to
      wait and run a sweep. */
  method HandleNewUser(id: Id, queue: WaitingQueue, store: Store, io: Io, users: UserStateMap, now: int,
                       createOk: bool, sweepOk: nat -> bool)
    requires store.Valid()
    modifies queue, store, io, users
    ensures store.Valid() && store.messages == old(store.messages) && io.live == old(io.live)
    ensures Admit(old(queue.entries), old(io.live), id).AlreadyQueued? ==>
      && queue.entries == old(queue.entries) && io.log == old(io.log) && io.rooms == old(io.rooms)
      && users.states == old(users.states)
      && store.conversations == old(store.conversations) && store.nextId == old(store.nextId)
    ensures Admit(old(queue.entries), old(io.live), id).PairWith? ==>
      var k := Admit(old(queue.entries), old(io.live), id).index;
      var partner, c := old(queue.entries)[k], old(store.nextId);
      && queue.entries == Spliced(old(queue.entries), k)
      && io.log == old(io.log) + MatchEmissions(id, partner, createOk, c)
      && io.rooms == MatchRooms(old(io.rooms), id, partner, createOk, c)
      && users.states == MatchStates(old(users.states), id, partner, createOk)
      && store.conversations == MatchConversations(old(store.conversations), id, partner, createOk, c, now)
    ensures Admit(old(queue.entries), old(io.live), id).Enqueue? ==>
      && queue.entries == (if id in old(io.live) then [id] else [])
      && io.log == old(io.log) + [ToSocket(id, WaitingEvent)]
      && io.rooms == old(io.rooms)
      && users.states == Updated(old(users.states), id, Some(Waiting))
      && store.conversations == old(store.conversations) && store.nextId == old(store.nextId)
  {
    if id in queue.entries {
      return;
    }
    if |queue.entries| > 0 {
      var i := 0;
      while i < |queue.entries|
        invariant 0 <= i <= |queue.entries| && queue.entries == old(queue.entries)
        invariant forall k | 0 <= k < i :: queue.entries[k] !in io.live
      {
        var partner := queue.entries[i];
        if partner in io.live {
          queue.entries := queue.entries[..i] + queue.entries[i + 1..];
          var _ := MatchUsers(id, partner, store, io, users, now, createOk);
          return;
        }
        i := i + 1;
      }
      queue.entries := Restrict(queue.entries, io.live);
    }
    queue.entries := queue.entries + [id];
    io.Emit(id, WaitingEvent);
    users.Update(id, Some(Waiting));
    EnqueueLeavesOnlyNewcomer(old(queue.entries), old(io.live), id, sweepOk);
    MatchAllWaitingUsers(queue, store, io, users, now, sweepOk);
  }
}
