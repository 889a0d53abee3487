/** `handle_user_disconnect`: take the socket out of the waiting queue, then
    end its conversation, handing a still-connected partner back to the
    queue. The lookup and the deletion may fail; a failure jumps to the
    handler's catch, which only logs. */
module Disconnect {
  import opened Common
  import opened Transport
  import opened ConversationStore
  import opened UserStates
  import opened Pairing
  import opened Matchmaking

  /** The first position at or after `from` whose participant is not `id`. */
  function FirstOther(participants: seq<Id>, id: Id, from: nat): (r: Option<nat>)
    decreases |participants| - from
    ensures r.Some? ==> from <= r.value < |participants| && participants[r.value] != id
    ensures r.Some? ==> forall k | from <= k < r.value :: participants[k] == id
    ensures r.None? ==> forall k | from <= k < |participants| :: participants[k] == id
  {
    if from >= |participants| then None
    else if participants[from] != id then Some(from)
    else FirstOther(participants, id, from + 1)
  }

  /** `participants.find(p => p !== id)` */
  function PartnerOf(participants: seq<Id>, id: Id): (r: Option<Id>)
    ensures r.Some? ==> r.value != id && r.value in participants
    ensures r.None? <==> forall k | 0 <= k < |participants| :: participants[k] == id
  {
    match FirstOther(participants, id, 0)
    case Some(k) => Some(participants[k])
    case None => None
  }

  /** In a two-party conversation that contains `id`, the partner is the
      other participant. */
  lemma PartnerOfPair(a: Id, b: Id)
    requires a != b
    ensures PartnerOf([a, b], a) == Some(b) && PartnerOf([a, b], b) == Some(a)
  {
    assert FirstOther([a, b], a, 0) == Some(1);
    assert FirstOther([a, b], b, 0) == Some(0);
  }

  /** The partner the handler notifies: found, truthy (a non-empty id) and
      still connected. */
  function NotifiedPartner(participants: seq<Id>, id: Id, live: set<Id>): (r: Option<Id>)
    ensures r.Some? ==> r.value != id && r.value != "" && r.value in live && r.value in participants
    ensures r.Some? <==> PartnerOf(participants, id).Some? && PartnerOf(participants, id).value != "" &&
                         PartnerOf(participants, id).value in live
  {
    var p := PartnerOf(participants, id);
    if p.Some? && p.value != "" && p.value in live then p else None
  }

  /** The queue after the disconnect of `id`: without `id`, then the
      notified partner, if any, at the end. */
  function QueueAfterDisconnect(q: seq<Id>, id: Id, partner: Option<Id>): seq<Id> {
    Exclude(q, {id}) + (if partner.Some? then [partner.value] else [])
  }

  /** The disconnected id is gone from the queue; every other entry keeps
      its relative order, and a notified partner is appended once, last. */
  lemma {:induction false} QueueAfterDisconnectShape(q: seq<Id>, id: Id, partner: Option<Id>)
    requires partner.Some? ==> partner.value != id
    ensures var r := QueueAfterDisconnect(q, id, partner);
      && id !in r
      && (forall x | x != id && (partner.None? || x != partner.value) :: (x in r <==> x in q))
      && (partner.Some? ==> r[|r| - 1] == partner.value)
      && (id !in q ==> |q| <= |r| && r[..|q|] == q)
  {
    if id !in q {
      forall k | 0 <= k < |q| ensures q[k] !in {id} {
        assert q[k] in q;
      }
      ExcludeNone(q, {id});
    }
  }

  /** `handle_user_disconnect(id)`. Returns whether a catch-up sweep was
      scheduled (the 500 ms timer). */
  method HandleUserDisconnect(id: Id, queue: WaitingQueue, store: Store, io: Io, users: UserStateMap,
                              findOk: bool, endOutcome: EndOutcome)
    returns (sweepScheduled: bool)
    requires store.Valid()
    modifies queue, store, io, users
    ensures store.Valid() && store.nextId == old(store.nextId) && io.live == old(io.live) && io.rooms == old(io.rooms)
    ensures id !in queue.entries
    // the lookup throws: only the queue removal has happened
    ensures !findOk ==>
      && queue.entries == Exclude(old(queue.entries), {id})
      && io.log == old(io.log) && users.states == old(users.states) && !sweepScheduled
      && store.conversations == old(store.conversations) && store.messages == old(store.messages)
    // no active conversation: remove from the queue and clear the user state
    ensures findOk && old(store.ActiveOf(id)).None? ==>
      && queue.entries == Exclude(old(queue.entries), {id})
      && io.log == old(io.log) && users.states == Updated(old(users.states), id, None) && !sweepScheduled
      && store.conversations == old(store.conversations) && store.messages == old(store.messages)
    // a conversation: hand a live partner back, end the conversation, then
    // clear the user state unless ending it threw
    ensures findOk && old(store.ActiveOf(id)).Some? ==>
      var c := old(store.ActiveOf(id)).value;
      var partner := NotifiedPartner(old(store.conversations)[c].participants, id, old(io.live));
      var afterPartner := if partner.Some? then Updated(old(users.states), partner.value, Some(Waiting))
                          else old(users.states);
      && queue.entries == QueueAfterDisconnect(old(queue.entries), id, partner)
      && io.log == old(io.log) + (if partner.Some? then [ToSocket(partner.value, PartnerDisconnected),
                                                         ToSocket(partner.value, WaitingEvent)] else [])
      && users.states == (if endOutcome == Ended then Updated(afterPartner, id, None) else afterPartner)
      && (sweepScheduled <==> partner.Some?)
      && store.messages == (if endOutcome == MessagesDeleteFailed then old(store.messages) else old(store.messages) - {c})
      && store.conversations == (if endOutcome == Ended then old(store.conversations) - {c} else old(store.conversations))
  {
    sweepScheduled := false;
    queue.entries := Exclude(queue.entries, {id});
    var found := store.FindByParticipant(id, findOk);
    if found.LookupFailed? {
      return;
    }
    if found.Found? {
      var c := found.id;
      var partner := PartnerOf(store.conversations[c].participants, id);
      if partner.Some? && partner.value != "" {
        var p := partner.value;
        if p in io.live {
          io.Emit(p, PartnerDisconnected);
          queue.entries := queue.entries + [p];
          io.Emit(p, WaitingEvent);
          users.Update(p, Some(Waiting));
          sweepScheduled := true;
        }
      }
      var done := store.End(c, endOutcome);
      if !done {
        return;
      }
    }
    users.Update(id, None);
  }

  // ---------------------------------------------------------------------
  // A partner handed back while already waiting
  // ---------------------------------------------------------------------

  /** `find-new-partner` leaves the socket's conversation active, so the
      socket can wait while still a participant. Say `a` asks for a new
      partner and nobody connected is waiting: `a` ends up waiting alone.
      If its old partner `b` then disconnects, the lookup finds the
      conversation of `a` and `b`, and the handler pushes `a` again without
      looking: the queue is `[a, a]`, and the next sweep calls
      `match_users(a, a)`, which puts `a` in a conversation with itself
      and leaves one id matched for one pairing. */
  lemma RequeueDuplicates(q: seq<Id>, live: set<Id>, a: Id, b: Id, ok: nat -> bool)
    requires Admit(q, live, a).Enqueue? && a in live && a != b && a != ""
    requires ok(0)
    ensures var waiting := SweepRemaining(Restrict(Restrict(q, live) + [a], live), ok);
      var after := QueueAfterDisconnect(waiting, b, NotifiedPartner([a, b], b, live));
      && waiting == [a]
      && after == [a, a] && !Distinct(after)
      && Sweep(after, ok) == Pass({a}, [Attempt(0, 1, true)])
      && |Sweep(after, ok).matched| != 2 * Successes(Sweep(after, ok).attempts)
  {
    EnqueueLeavesOnlyNewcomer(q, live, a, ok);
    PartnerOfPair(a, b);
    var after := [a, a];
    assert Exclude([a], {b}) == [a] by {
      assert Exclude([a][1..], {b}) == [];
    }
    assert QueueAfterDisconnect([a], b, Some(a)) == after;
    var p1 := Pass({a}, [Attempt(0, 1, true)]);
    assert PartnerSearch(after, ok, 0, 1, Pass({}, [])) == p1;
    assert SweepFrom(after, ok, 2, p1) == p1;
    assert SweepFrom(after, ok, 1, p1) == p1;
    assert Sweep(after, ok) == p1;
    assert Successes(p1.attempts) == Successes([]) + 1;
  }

  /** The queue step as evidently intended: the partner is pushed only when
      not already waiting, as `handle_new_user` does for a newcomer. */
  function QueueAfterDisconnectOnce(q: seq<Id>, id: Id, partner: Option<Id>): seq<Id> {
    Exclude(q, {id}) + (if partner.Some? && partner.value !in q then [partner.value] else [])
  }

  /** With the guarded push no id ever waits twice: a queue without
      duplicates keeps none, the leaving socket is gone, and a notified
      partner is waiting afterwards. */
  lemma RequeueOnceKeepsDistinct(q: seq<Id>, id: Id, partner: Option<Id>)
    requires Distinct(q) && (partner.Some? ==> partner.value != id)
    ensures var r := QueueAfterDisconnectOnce(q, id, partner);
      && Distinct(r) && id !in r
      && (partner.Some? ==> partner.value in r)
      && (forall x | x != id :: x in q ==> x in r)
  {
    ExcludeDistinct(q, {id});
    var e := Exclude(q, {id});
    if partner.Some? && partner.value !in q {
      var r := e + [partner.value];
      forall a, b | 0 <= a < b < |r| ensures r[a] != r[b] {
        if b == |e| {
          assert r[a] in e;
        }
      }
    } else {
      assert e + [] == e;
    }
  }
}
