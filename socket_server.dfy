/** The handlers `setup_socket_server` registers: connection, reaction,
    `find-new-partner` and disconnect. Each runs to completion; the
    database outcomes are arguments. The `send-message` handler is
    `SendMessage.HandleSendMessage`; `update_user_state` is
    `UserStates.UserStateMap.Update`. */
module SocketServer {
  import opened Common
  import opened Transport
  import opened ConversationStore
  import opened UserStates
  import opened Pairing
  import opened Matchmaking
  import opened Disconnect
  import opened SocketRateLimit

  /** The `add-reaction` payload; `None` when it cannot be destructured. */
  datatype ReactionRequest = ReactionRequest(conversationId: ConvId, messageIndex: int, emoji: string)

  /** `handle_add_reaction(socket, io, data)`: make sure the sender is in
      the conversation's room (joining, and so creating, it if needed), then
      send the reaction, unchanged, to the whole room. */
  method HandleAddReaction(id: Id, io: Io, data: Option<ReactionRequest>)
    modifies io
    ensures io.live == old(io.live)
    ensures data.None? ==> io.rooms == old(io.rooms) && io.log == old(io.log) + [ToSocket(id, ErrorEvent(ReactionFailed))]
    ensures data.Some? ==>
      var room := data.value.conversationId;
      && io.rooms == Joined(old(io.rooms), room, id)
      && io.log == old(io.log) + [ToRoom(room, Members(old(io.rooms), room) + {id},
                                         ReceiveReaction(data.value.messageIndex, data.value.emoji))]
  {
    if data.None? {
      io.Emit(id, ErrorEvent(ReactionFailed));
      return;
    }
    var room := data.value.conversationId;
    if RoomExists(io.rooms, room) {
      if id !in Members(io.rooms, room) {
        io.Join(id, room);
      } else {
        assert room in io.rooms && io.rooms[room] == Members(io.rooms, room) + {id};
        assert Joined(io.rooms, room, id) == io.rooms;
      }
    } else {
      io.Join(id, room);
    }
    io.EmitToRoom(room, ReceiveReaction(data.value.messageIndex, data.value.emoji));
  }

  /** The `connection` handler: the socket is registered, the admission
      check (which never refuses) resets its rate entry, and it is handed
      to `handle_new_user`. */
  method OnConnection(id: Id, queue: WaitingQueue, store: Store, io: Io, users: UserStateMap, rates: SocketRateStore,
                      now: int, createOk: bool, sweepOk: nat -> bool)
    requires store.Valid()
    modifies queue, store, io, users, rates
    ensures store.Valid() && io.live == old(io.live) + {id}
    ensures rates.entries == old(rates.entries)[id := Fresh(now)]
    ensures var admission := Admit(old(queue.entries), old(io.live) + {id}, id);
      && (admission.AlreadyQueued? ==> queue.entries == old(queue.entries) && io.log == old(io.log))
      && (admission.PairWith? ==>
            var partner := old(queue.entries)[admission.index];
            && queue.entries == Spliced(old(queue.entries), admission.index)
            && io.log == old(io.log) + MatchEmissions(id, partner, createOk, old(store.nextId)))
      && (admission.Enqueue? ==> queue.entries == [id] && io.log == old(io.log) + [ToSocket(id, WaitingEvent)])
  {
    io.Connect(id);
    var refused := rates.Admit(id, now);
    if refused {
      assert false;
    }
    HandleNewUser(id, queue, store, io, users, now, createOk, sweepOk);
  }

  /** The `find-new-partner` handler calls `handle_new_user` and nothing
      else: the conversation the socket is in is not ended, so it can be
      waiting (or newly matched) while still in an active conversation. */
  method OnFindNewPartner(id: Id, queue: WaitingQueue, store: Store, io: Io, users: UserStateMap, now: int,
                          createOk: bool, sweepOk: nat -> bool)
    requires store.Valid()
    modifies queue, store, io, users
    ensures store.Valid() && io.live == old(io.live)
    ensures forall c | HasActive(old(store.conversations), id, c) :: HasActive(store.conversations, id, c)
    ensures Admit(old(queue.entries), old(io.live), id).Enqueue? ==>
      queue.entries == (if id in old(io.live) then [id] else []) && io.log == old(io.log) + [ToSocket(id, WaitingEvent)]
  {
    HandleNewUser(id, queue, store, io, users, now, createOk, sweepOk);
  }

  /** The sweep changes the state of paired ids only: an id that is not in
      the swept queue keeps its entry, or its absence. */
  lemma {:induction false} SweepStatesUntouched(states: map<Id, UserState>, q: seq<Id>, att: seq<Attempt>, x: Id)
    requires InRange(q, att) && x !in q
    ensures x in SweepStates(states, q, att) <==> x in states
    decreases |att|
  {
    if att != [] {
      var prefix, a := att[..|att| - 1], att[|att| - 1];
      assert InRange(q, prefix) by {
        forall k | 0 <= k < |prefix| ensures prefix[k].i < prefix[k].j < |q| {
          assert prefix[k] == att[k];
        }
      }
      SweepStatesUntouched(states, q, prefix, x);
      assert q[a.i] != x && q[a.j] != x;
    }
  }

  /** The `disconnect` handler: Socket.IO drops the socket from the live
      set and its rooms, then `handle_user_disconnect`,
      `cleanup_socket_store`, `update_user_state(id, null)` and a catch-up
      sweep run in that order. Afterwards the socket has no rate entry, no
      user state, and every waiting id is a connected socket. */
  method OnDisconnect(id: Id, queue: WaitingQueue, store: Store, io: Io, users: UserStateMap, rates: SocketRateStore,
                      now: int, findOk: bool, endOutcome: EndOutcome, sweepOk: nat -> bool)
    requires store.Valid()
    modifies queue, store, io, users, rates
    ensures store.Valid() && io.live == old(io.live) - {id}
    ensures rates.entries == old(rates.entries) - {id}
    ensures id !in users.states
    ensures forall x | x in queue.entries :: x in io.live
  {
    io.Disconnect(id);
    var _ := HandleUserDisconnect(id, queue, store, io, users, findOk, endOutcome);
    rates.Cleanup(id);
    users.Update(id, None);
    ghost var states := users.states;
    ghost var pruned := Restrict(queue.entries, io.live);
    MatchAllWaitingUsers(queue, store, io, users, now, sweepOk);
    SweepStatesUntouched(states, pruned, Sweep(pruned, sweepOk).attempts, id);
  }
}
