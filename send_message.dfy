/** `handle_send_message`: a chain of gates with early returns. The rate
    check, validation, sanitising, the conversation lookup, the save and the
    relay run in that order; the lookup and the save may fail, and their
    outcomes are arguments. */
module SendMessage {
  import opened Common
  import opened Transport
  import opened ConversationStore
  import opened SocketRateLimit
  import opened MessageValidator

  /** Where the handler stopped. `LookupError` and `SaveError` are the
      database failures the outer `catch` turns into one generic error. */
  datatype SendOutcome =
    | Throttled
    | Rejected(reason: Rejection)
    | LookupError
    | NoConversation
    | SaveError
    | Relayed(conversation: ConvId)

  /** The one event the handler emits on each exit path. */
  function Reply(id: Id, outcome: SendOutcome, content: string, now: int, rooms: map<ConvId, set<Id>>): Emission {
    match outcome
    case Throttled => ToSocket(id, ErrorEvent(TooFast))
    case Rejected(r) => ToSocket(id, ErrorEvent(Invalid(r)))
    case LookupError => ToSocket(id, ErrorEvent(SendFailed))
    case NoConversation => ToSocket(id, ErrorEvent(ConversationNotFound))
    case SaveError => ToSocket(id, ErrorEvent(SendFailed))
    case Relayed(c) => ToRoom(c, Members(rooms, c), ReceiveMessage(id, content, now))
  }

  /** The gates in their order: the first one that stops the message
      decides the outcome. */
  function Gates(limited: bool, rejection: Option<Rejection>, lookup: Lookup, save: SaveOutcome): (r: SendOutcome)
    ensures limited ==> r == Throttled
    ensures !limited && rejection.Some? ==> r == Rejected(rejection.value)
    ensures r.Relayed? <==> !limited && rejection.None? && lookup.Found? && save == Saved
    ensures r.Relayed? ==> r.conversation == lookup.id
    ensures r == NoConversation <==> !limited && rejection.None? && lookup.NotFound?
  {
    if limited then Throttled
    else if rejection.Some? then Rejected(rejection.value)
    else match lookup
      case LookupFailed => LookupError
      case NotFound => NoConversation
      case Found(c) => if save == Saved then Relayed(c) else SaveError
  }

  /** What the lookup yields for `id` in `store`. */
  function LookupOf(active: Option<ConvId>, ok: bool): Lookup {
    if !ok then LookupFailed else if active.Some? then Found(active.value) else NotFound
  }

  /** `handle_send_message(socket, io, content)`; `content` is `None` when
      the payload carries no string. The rate store records the attempt
      before validation, so a rejected message still uses up a slot. */
  method HandleSendMessage(id: Id, content: Option<string>, tables: CharTables, rates: SocketRateStore,
                           store: Store, io: Io, now: int, findOk: bool, saveOutcome: SaveOutcome)
    returns (outcome: SendOutcome)
    requires store.Valid()
    modifies rates, store, io
    ensures store.Valid() && store.nextId == old(store.nextId)
    ensures io.live == old(io.live) && io.rooms == old(io.rooms)
    ensures var v := Throttle(EntryOrFresh(old(rates.entries), id, now), now);
      && rates.entries == old(rates.entries)[id := v.entry]
      && outcome == Gates(v.limited, ValidateMessage(content, tables),
                          LookupOf(old(store.ActiveOf(id)), findOk), saveOutcome)
    ensures io.log == old(io.log) + [Reply(id, outcome, SanitizeMessage(content, tables), now, old(io.rooms))]
    // nothing is stored unless the save was reached
    ensures !outcome.Relayed? && outcome != SaveError ==>
      store.conversations == old(store.conversations) && store.messages == old(store.messages)
    // the save comes before the relay: a relayed message is stored
    ensures outcome.Relayed? || outcome == SaveError ==>
      && old(store.ActiveOf(id)).Some?
      && Stored(old(store.conversations), old(store.messages), store.conversations, store.messages,
                old(store.ActiveOf(id)).value, Message(id, SanitizeMessage(content, tables), now), saveOutcome)
  {
    var limited := rates.ShouldRateLimitMessage(id, now);
    if limited {
      io.Emit(id, ErrorEvent(TooFast));
      return Throttled;
    }
    var rejection := ValidateMessage(content, tables);
    if rejection.Some? {
      io.Emit(id, ErrorEvent(Invalid(rejection.value)));
      return Rejected(rejection.value);
    }
    var sanitized := SanitizeMessage(content, tables);
    outcome := Deliver(id, sanitized, store, io, now, findOk, saveOutcome);
  }

  /** The effect of `save_message` on both collections: the message is
      appended unless the insert failed, and the activity time is bumped
      only when both steps succeeded. */
  ghost predicate Stored(conversations0: map<ConvId, Conversation>, messages0: map<ConvId, seq<Message>>,
                         conversations: map<ConvId, Conversation>, messages: map<ConvId, seq<Message>>,
                         c: ConvId, m: Message, save: SaveOutcome)
  {
    && messages == (if save == InsertFailed then messages0 else messages0[c := MessagesOf(messages0, c) + [m]])
    && conversations == (if save == Saved && c in conversations0
                         then conversations0[c := conversations0[c].(lastActivity := m.createdAt)]
                         else conversations0)
  }

  /** The part of the handler after the content checks: find the
      conversation, save, relay. */
  method Deliver(id: Id, sanitized: string, store: Store, io: Io, now: int, findOk: bool, saveOutcome: SaveOutcome)
    returns (outcome: SendOutcome)
    requires store.Valid()
    modifies store, io
    ensures store.Valid() && store.nextId == old(store.nextId)
    ensures io.live == old(io.live) && io.rooms == old(io.rooms)
    ensures outcome == Gates(false, None, LookupOf(old(store.ActiveOf(id)), findOk), saveOutcome)
    ensures io.log == old(io.log) + [Reply(id, outcome, sanitized, now, old(io.rooms))]
    ensures !outcome.Relayed? && outcome != SaveError ==>
      store.conversations == old(store.conversations) && store.messages == old(store.messages)
    ensures outcome.Relayed? || outcome == SaveError ==>
      && old(store.ActiveOf(id)).Some?
      && Stored(old(store.conversations), old(store.messages), store.conversations, store.messages,
                old(store.ActiveOf(id)).value, Message(id, sanitized, now), saveOutcome)
  {
    var found := store.FindByParticipant(id, findOk);
    if found.LookupFailed? {
      io.Emit(id, ErrorEvent(SendFailed));
      return LookupError;
    }
    if found.NotFound? {
      io.Emit(id, ErrorEvent(ConversationNotFound));
      return NoConversation;
    }
    var c := found.id;
    var saved := store.Save(c, id, sanitized, now, saveOutcome);
    if saved.None? {
      io.Emit(id, ErrorEvent(SendFailed));
      return SaveError;
    }
    io.EmitToRoom(c, ReceiveMessage(id, sanitized, saved.value.createdAt));
    outcome := Relayed(c);
  }
}
