/** The conversation and message collections, reduced to what the thin
    database wrappers promise: `create_conversation`,
    `get_conversation_by_participant`, `end_conversation` and
    `save_message`. Every database call may fail; the outcome of each call
    is an explicit argument. */
module ConversationStore {
  import opened Common

  datatype Conversation = Conversation(participants: seq<Id>, isActive: bool, lastActivity: int)

  datatype Message = Message(sender: Id, content: string, createdAt: int)

  /** What `get_conversation_by_participant` yields: a document, null, or a
      rethrown database error. */
  datatype Lookup = Found(id: ConvId) | NotFound | LookupFailed

  /** `end_conversation` deletes the messages, then the record; either
      deletion can throw. */
  datatype EndOutcome = Ended | MessagesDeleteFailed | RecordDeleteFailed

  /** `save_message` inserts the message, then bumps `last_activity`;
      either step can throw. */
  datatype SaveOutcome = Saved | InsertFailed | TouchFailed

  /** The query `{participants: id, is_active: true}` matches `c`. */
  predicate HasActive(conversations: map<ConvId, Conversation>, id: Id, c: ConvId) {
    c in conversations && conversations[c].isActive && id in conversations[c].participants
  }

  /** `findOne` in natural order: ids are handed out increasingly, so the
      first match is the matching conversation with the smallest id. */
  function FirstActive(conversations: map<ConvId, Conversation>, id: Id, from: nat, bound: nat): (r: Option<ConvId>)
    decreases bound - from
    ensures r.Some? ==> from <= r.value < bound && HasActive(conversations, id, r.value)
    ensures r.Some? ==> forall c | from <= c < r.value :: !HasActive(conversations, id, c)
    ensures r.None? ==> forall c | from <= c < bound :: !HasActive(conversations, id, c)
  {
    if from >= bound then None
    else if HasActive(conversations, id, from) then Some(from)
    else FirstActive(conversations, id, from + 1, bound)
  }

  /** The messages stored under a conversation id. */
  function MessagesOf(messages: map<ConvId, seq<Message>>, c: ConvId): seq<Message> {
    if c in messages then messages[c] else []
  }

  class Store {
    var conversations: map<ConvId, Conversation>
    var messages: map<ConvId, seq<Message>>
    var nextId: ConvId

    /** Every record id was handed out before, so `nextId` is fresh. */
    ghost predicate Valid()
      reads this
    {
      forall c | c in conversations :: c < nextId
    }

    constructor ()
      ensures Valid() && conversations == map[] && messages == map[] && nextId == 0
    {
      conversations, messages, nextId := map[], map[], 0;
    }

    /** The conversation `findOne({participants: id, is_active: true})` returns. */
    function ActiveOf(id: Id): (r: Option<ConvId>)
      reads this
      requires Valid()
      ensures r.Some? ==> HasActive(conversations, id, r.value)
      ensures r.Some? ==> forall c: ConvId | c < r.value :: !HasActive(conversations, id, c)
      ensures r.None? ==> forall c :: !HasActive(conversations, id, c)
    {
      FirstActive(conversations, id, 0, nextId)
    }

    /** `create_conversation(participants)`: a new active record; the schema
        refuses any participant list whose length is not 2. */
    method Create(participants: seq<Id>, now: int, ok: bool) returns (r: Option<ConvId>)
      requires Valid()
      modifies this
      ensures Valid() && messages == old(messages)
      ensures r.Some? <==> ok && |participants| == 2
      ensures r.Some? ==> r.value == old(nextId) && r.value !in old(conversations)
      ensures r.Some? ==> conversations == old(conversations)[r.value := Conversation(participants, true, now)]
      ensures r.Some? ==> nextId == old(nextId) + 1
      ensures r.None? ==> conversations == old(conversations) && nextId == old(nextId)
    {
      if ok && |participants| == 2 {
        r := Some(nextId);
        conversations := conversations[nextId := Conversation(participants, true, now)];
        nextId := nextId + 1;
      } else {
        r := None;
      }
    }

    /** `get_conversation_by_participant(id)` */
    method FindByParticipant(id: Id, ok: bool) returns (r: Lookup)
      requires Valid()
      ensures !ok ==> r == LookupFailed
      ensures ok && ActiveOf(id).Some? ==> r == Found(ActiveOf(id).value)
      ensures ok && ActiveOf(id).None? ==> r == NotFound
    {
      if !ok {
        return LookupFailed;
      }
      var found := ActiveOf(id);
      r := if found.Some? then Found(found.value) else NotFound;
    }

    /** `end_conversation(c)`: messages first, then the record (hard delete). */
    method End(c: ConvId, outcome: EndOutcome) returns (done: bool)
      requires Valid()
      modifies this
      ensures Valid() && nextId == old(nextId)
      ensures done <==> outcome == Ended
      ensures messages == if outcome == MessagesDeleteFailed then old(messages) else old(messages) - {c}
      ensures conversations == if outcome == Ended then old(conversations) - {c} else old(conversations)
    {
      if outcome == MessagesDeleteFailed {
        return false;
      }
      messages := messages - {c};
      if outcome == RecordDeleteFailed {
        return false;
      }
      conversations := conversations - {c};
      done := true;
    }

    /** `save_message(c, sender, content)`: appends the message, then sets
        the conversation's `last_activity` (a missing record is not an error). */
    method Save(c: ConvId, sender: Id, content: string, now: int, outcome: SaveOutcome) returns (r: Option<Message>)
      requires Valid()
      modifies this
      ensures Valid() && nextId == old(nextId)
      ensures r.Some? <==> outcome == Saved
      ensures r.Some? ==> r.value == Message(sender, content, now)
      ensures messages == if outcome == InsertFailed then old(messages)
                          else old(messages)[c := MessagesOf(old(messages), c) + [Message(sender, content, now)]]
      ensures conversations == if outcome == Saved && c in old(conversations)
                               then old(conversations)[c := old(conversations)[c].(lastActivity := now)]
                               else old(conversations)
    {
      if outcome == InsertFailed {
        return None;
      }
      var m := Message(sender, content, now);
      messages := messages[c := MessagesOf(messages, c) + [m]];
      if outcome == TouchFailed {
        return None;
      }
      if c in conversations {
        conversations := conversations[c := conversations[c].(lastActivity := now)];
      }
      r := Some(m);
    }
  }
}
