/** The Socket.IO server as the handlers see it: the set of connected socket
    ids (`io.sockets.sockets`), room membership (`io.sockets.adapter.rooms`)
    and, in place of the network, a log of every event emitted. */
module Transport {
  import opened Common

  /** The members of a room; a room nobody joined has none. */
  function Members(rooms: map<ConvId, set<Id>>, room: ConvId): set<Id> {
    if room in rooms then rooms[room] else {}
  }

  /** Socket.IO forgets a room once its last member leaves, so a room
      exists exactly when it has a member. */
  predicate RoomExists(rooms: map<ConvId, set<Id>>, room: ConvId) {
    Members(rooms, room) != {}
  }

  /** `socket.join(room)`: the room is created if needed. */
  function Joined(rooms: map<ConvId, set<Id>>, room: ConvId, id: Id): (r: map<ConvId, set<Id>>)
    ensures Members(r, room) == Members(rooms, room) + {id}
    ensures forall other :: other != room ==> Members(r, other) == Members(rooms, other)
  {
    rooms[room := Members(rooms, room) + {id}]
  }

  /** What a disconnect does to rooms: the socket leaves every room. */
  function LeftAll(rooms: map<ConvId, set<Id>>, id: Id): (r: map<ConvId, set<Id>>)
    ensures forall room :: Members(r, room) == Members(rooms, room) - {id}
  {
    map room | room in rooms :: rooms[room] - {id}
  }

  class Io {
    var live: set<Id>
    var rooms: map<ConvId, set<Id>>
    var log: seq<Emission>

    constructor ()
      ensures live == {} && rooms == map[] && log == []
    {
      live, rooms, log := {}, map[], [];
    }

    /** A client connects: Socket.IO registers its socket before the
        `connection` handler runs. */
    method Connect(id: Id)
      modifies this
      ensures live == old(live) + {id}
      ensures rooms == old(rooms) && log == old(log)
    {
      live := live + {id};
    }

    /** A client goes away: Socket.IO unregisters the socket and removes it
        from every room before the `disconnect` handler runs. */
    method Disconnect(id: Id)
      modifies this
      ensures live == old(live) - {id}
      ensures rooms == LeftAll(old(rooms), id) && log == old(log)
    {
      live := live - {id};
      rooms := LeftAll(rooms, id);
    }

    /** `socket.emit(event)` */
    method Emit(target: Id, event: Event)
      modifies this
      ensures log == old(log) + [ToSocket(target, event)]
      ensures live == old(live) && rooms == old(rooms)
    {
      log := log + [ToSocket(target, event)];
    }

    /** `socket.join(room)` */
    method Join(id: Id, room: ConvId)
      modifies this
      ensures rooms == Joined(old(rooms), room, id)
      ensures live == old(live) && log == old(log)
    {
      rooms := Joined(rooms, room, id);
    }

    /** `io.to(room).emit(event)`: delivered to the room's current members. */
    method EmitToRoom(room: ConvId, event: Event)
      modifies this
      ensures log == old(log) + [ToRoom(room, Members(old(rooms), room), event)]
      ensures live == old(live) && rooms == old(rooms)
    {
      log := log + [ToRoom(room, Members(rooms, room), event)];
    }
  }
}
