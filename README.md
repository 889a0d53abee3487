# Anonymous chat server: matchmaking and session lifecycle

This project models the core of an anonymous one-to-one chat server.

- **Waiting queue.** Every socket that connects joins a waiting queue. A
  newcomer is paired at once with the earliest still-connected waiting
  socket. Otherwise it waits, and a greedy first-in-first-out sweep
  (`match_all_waiting_users`) pairs whoever is waiting.
- **Matching.** A pairing creates a two-party conversation. Both sockets
  learn its id and each other's id, join its room and are marked `matched`
  in the shared user-state dictionary.
- **Disconnect.** A disconnect takes the socket out of the queue, hands a
  connected partner back to the queue and hard-deletes the conversation and
  its messages.
- **Idle reaper.** A periodic reaper notifies the participants of
  conversations idle for more than a minute, then deletes those
  conversations.
- **Sending a message.** A message passes, in this order:
  - the per-socket throttle: a 60 s window of 30 messages, a 500 ms minimum
    gap, a 30 s block;
  - the validator: length, blank, repeated characters, repeated words,
    stacked diacritics, allowed characters. It checks the text with URLs
    masked as `[URL_k]` placeholders;
  - the sanitiser;
  - the conversation lookup and the save;
  - the relay to the room.
- **HTTP rate limiter.** A fixed-window limiter with one shared store per
  client key.

How the model is built:

- **Shared state.** The state the handlers mutate is held in Dafny classes:
  - the waiting queue;
  - the conversation and message collections;
  - the transport: live sockets, rooms and a log of emitted events;
  - the user-state dictionary;
  - the two rate-limit stores;
  - the monitor's interval.
- **Handlers.** They are methods proved against pure specification
  functions. The properties are lemmas about those functions.
- **Inputs from outside.**
  - Every database call may fail, and its outcome is an argument: `ok`,
    `findOk`, `createOk`, `endOutcome`, `saveOutcome`. So is the outcome of
    the k-th call of a sweep (`ok(k)`).
  - The clock is an argument (`now`, in milliseconds).
  - The Unicode tables the validator's regular expressions consult are an
    argument (`CharTables`).
- **Ordering.** Each handler runs to completion before the next one starts.

## Model

| member | source | states |
|---|---|---|
| Common.Restrict | src/controllers/socket/handle_new_user.ts:61 | the pruned queue holds exactly the entries that are in the set, never more entries than before |
| Common.RestrictConcat | src/controllers/socket/handle_new_user.ts:124-128 | filtering distributes over concatenation, so kept entries keep their relative order |
| Common.ExcludeConcat | src/controllers/socket/handle_new_user.ts:87 | removing matched ids distributes over concatenation |
| Transport.Joined | src/controllers/socket/setup_socket_server.ts:56 | `join` adds the socket to exactly that room (creating it) and leaves every other room alone |
| Transport.LeftAll | src/controllers/socket/setup_socket_server.ts:124 | a disconnected socket is a member of no room |
| Transport.Io.EmitToRoom | src/controllers/socket/handle_send_message.ts:59-63 | a room emission reaches the members the room has at that moment |
| ConversationStore.Store.Create | src/controllers/conversation/create_conversation.ts:4-19 | creation succeeds exactly when the store call succeeds and there are two participants (the schema validator); the new record is active with a fresh id and nothing else changes |
| ConversationStore.Store.ActiveOf | src/controllers/conversation/get_conversation.ts:6-9 | the result is an active conversation containing the id, the first such in id order, and is absent only when none exists |
| ConversationStore.Store.FindByParticipant | src/controllers/conversation/get_conversation.ts:4-14 | a failed query rethrows; otherwise the result is the active conversation of the id or null |
| ConversationStore.Store.End | src/controllers/conversation/end_conversation.ts:5-20 | the messages are deleted before the record; a failure in either step leaves what is not yet deleted and reports failure |
| ConversationStore.Store.Save | src/controllers/message/save_message.ts:5-25 | the message is appended unless the insert throws; `last_activity` is set to the message time only when both steps succeed; the saved message is returned only then |
| UserStates.Updated | src/controllers/socket/setup_socket_server.ts:23-30 | `null` deletes the key, any other state sets it; every other key is unchanged |
| UserStates.UpdatedIdempotent | src/controllers/socket/setup_socket_server.ts:23-30 | repeating an update changes nothing |
| UserStates.UpdatedCommute | src/controllers/socket/setup_socket_server.ts:23-30 | updates of different sockets commute |
| UserStates.UserStateMap.Update | src/controllers/socket/setup_socket_server.ts:23-30 | the dictionary becomes `Updated` of its old value |
| Pairing.FirstLive | src/controllers/socket/handle_new_user.ts:109-121 | the index found is the first connected entry; none is found only if no entry is connected |
| Pairing.Admit | src/controllers/socket/handle_new_user.ts:100-128 | an already-queued id is ignored; otherwise it pairs with the earliest connected waiting entry, or waits exactly when no waiting entry is connected |
| Pairing.ImmediatePairingRemovesBoth | src/controllers/socket/handle_new_user.ts:107-120 | on a queue with distinct ids, after an immediate pairing neither socket is waiting, and the queue is the old one without the partner, in order |
| Pairing.EnqueueLeavesOnlyNewcomer | src/controllers/socket/handle_new_user.ts:123-140 | when nobody connected is waiting, the newcomer ends up waiting alone and the sweep makes no call |
| Pairing.SweepPairsDisjoint | src/controllers/socket/handle_new_user.ts:65-87 | each sweep call pairs a position with a later one; successful pairs share no socket, come in queue order, and the matched set is exactly their ids |
| Pairing.MatchedBySize | src/controllers/socket/handle_new_user.ts:79-80 | with distinct ids, the matched set holds two ids per successful call |
| Pairing.SweepMatchedEven | src/controllers/socket/handle_new_user.ts:89 | on a queue with distinct ids, the matched set's size is twice the number of pairs formed |
| Pairing.SweepAllOkLeavesAtMostOne | src/controllers/socket/handle_new_user.ts:67-87 | if every `match_users` call succeeds, at most one socket is left waiting |
| Pairing.SweepIsFifo | src/controllers/socket/handle_new_user.ts:67-84 | with distinct ids and every call succeeding, the sweep pairs 1st with 2nd, 3rd with 4th, and so on, and makes no other call |
| Matchmaking.SweepMarksMatched | src/controllers/socket/handle_new_user.ts:39-40 | the sweep marks exactly the paired ids `matched` and leaves every other user-state entry alone |
| Matchmaking.SweepCreatesOnePerPairing | src/controllers/socket/handle_new_user.ts:16 | the sweep adds one active two-party conversation with a fresh id per successful pairing and changes no existing one |
| Matchmaking.MatchUsers | src/controllers/socket/handle_new_user.ts:11-53 | on success both sockets get `matched` with the same new conversation id and each other's id, join its room and are marked matched; on failure both get an error and nothing else changes |
| Matchmaking.FindPartner | src/controllers/socket/handle_new_user.ts:72-83 | the inner loop performs exactly the calls `PartnerSearch` prescribes and stops at the first success |
| Matchmaking.MatchAllWaitingUsers | src/controllers/socket/handle_new_user.ts:56-93 | the queue is pruned to connected sockets, swept, and becomes the pruned queue without the matched ids; conversations, rooms, user states and events are those of the sweep's calls in order |
| Matchmaking.HandleNewUser | src/controllers/socket/handle_new_user.ts:95-145 | the three cases of `Admit`: nothing changes; immediate pairing with the partner spliced out; or the queue becomes just the newcomer (if still connected), it is told to wait and marked waiting |
| Disconnect.PartnerOf | src/controllers/socket/handle_user_disconnect.ts:36 | the partner found is a participant other than the id, and none is found only if every participant is the id |
| Disconnect.PartnerOfPair | src/controllers/socket/handle_user_disconnect.ts:36 | in a two-party conversation each side's partner is the other |
| Disconnect.NotifiedPartner | src/controllers/socket/handle_user_disconnect.ts:36-41 | the partner is notified exactly when it exists, is a non-empty id and is still connected |
| Disconnect.QueueAfterDisconnectShape | src/controllers/socket/handle_user_disconnect.ts:13-20 | the leaving socket is not waiting any more; everyone else keeps their place; a notified partner is appended last |
| Disconnect.RequeueDuplicates | src/controllers/socket/handle_user_disconnect.ts:34-51 | a socket that asks for a new partner while still in a conversation, and whose partner then leaves, is queued twice and the sweep pairs it with itself |
| Disconnect.RequeueOnceKeepsDistinct | src/controllers/socket/handle_user_disconnect.ts:44 | pushing the partner only when it is not already waiting keeps the queue's ids distinct; the leaving socket is gone, the partner is waiting and nobody else is lost |
| Disconnect.HandleUserDisconnect | src/controllers/socket/handle_user_disconnect.ts:8-64 | per lookup outcome: queue removal only (lookup throws); plus clearing the state (no conversation); or partner hand-back with two events, a scheduled sweep, deletion of messages then record, and clearing the state unless the deletion threw |
| SocketRateLimit.Recent | src/middleware/socket_rate_limiter.ts:109-111 | the kept times are exactly the recorded times inside the window |
| SocketRateLimit.BlockedLeavesEntry | src/middleware/socket_rate_limiter.ts:79-83 | while blocked, a message is refused and the entry is unchanged |
| SocketRateLimit.TooSoonIsBlocked | src/middleware/socket_rate_limiter.ts:97-103 | a message within 500 ms of the last one is refused, blocks for 30 s and is not recorded |
| SocketRateLimit.RecordedWindow | src/middleware/socket_rate_limiter.ts:105-124 | past the gap check the message is recorded last, every recorded time is inside the window, the count equals the recorded times, and the message passes exactly when that count is at most 30 |
| SocketRateLimit.AcceptedWithinLimit | src/middleware/socket_rate_limiter.ts:113-124 | an accepted message leaves at most 30 recorded times |
| SocketRateLimit.ThirtyFirstRefused | src/middleware/socket_rate_limiter.ts:116-121 | a 31st message inside the window is refused, and is still recorded |
| SocketRateLimit.SecondQuickMessageRefused | src/middleware/socket_rate_limiter.ts:92-103 | of two messages less than 500 ms apart with no reset between, the second is refused |
| SocketRateLimit.GapNotEnforcedAcrossReset | src/middleware/socket_rate_limiter.ts:86-98 | the window reset forgets the last time, so two messages 1 ms apart across a reset both pass |
| SocketRateLimit.ThrottleKeepsSpacing | src/middleware/socket_rate_limiter.ts:98-111 | the recorded times stay at least 500 ms apart |
| SocketRateLimit.EvictionUnobservable | src/middleware/socket_rate_limiter.ts:139-150 | an entry the periodic cleanup removes gives the same verdict as the fresh entry that replaces it |
| SocketRateLimit.SocketRateStore.Admit | src/middleware/socket_rate_limiter.ts:45-58 | every connection is admitted with a fresh entry |
| SocketRateLimit.SocketRateStore.ShouldRateLimitMessage | src/middleware/socket_rate_limiter.ts:64-125 | verdict and new entry are those of `Throttle` on the stored (or fresh) entry; no other entry changes |
| SocketRateLimit.SocketRateStore.Cleanup | src/middleware/socket_rate_limiter.ts:130-134 | the socket's entry is removed and no other |
| SocketRateLimit.SocketRateStore.Evict | src/middleware/socket_rate_limiter.ts:140-150 | exactly the stale entries are removed; kept entries are unchanged |
| HttpRateLimit.CeilDiv | src/middleware/rate_limiter.ts:54 | the integer ceiling of a quotient |
| HttpRateLimit.ClientKey | src/middleware/rate_limiter.ts:35-37 | the forwarded-for header when present and non-empty, else the remote address, else "unknown"; never empty |
| HttpRateLimit.BlockedNotCounted | src/middleware/rate_limiter.ts:52-59 | a blocked key is refused with a positive retry time, and its entry is unchanged |
| HttpRateLimit.CountedOnce | src/middleware/rate_limiter.ts:61-85 | an unblocked request is counted once after any window reset; Remaining is `max(0, max - count)`; it passes exactly when within the limit, and otherwise blocks the key |
| HttpRateLimit.AtMostMaxPerWindow | src/middleware/rate_limiter.ts:61-83 | within one window, at most `max` minus the already counted requests pass |
| HttpRateLimit.SharedStoreAccumulates | src/middleware/rate_limiter.ts:20 | requests through the API and the strict limiter for the same key count against one shared entry |
| HttpRateLimit.EvictionUnobservable | src/middleware/rate_limiter.ts:110-118 | an entry the cleanup removes behaves for any later request like the new entry that replaces it |
| HttpRateLimit.IpStore.Handle | src/middleware/rate_limiter.ts:33-86 | outcome and new entry are those of `Step` on the stored (or new) entry |
| HttpRateLimit.IpStore.Evict | src/middleware/rate_limiter.ts:110-118 | exactly the evictable entries are removed; kept entries are unchanged |
| ConversationMonitoring.SelectIdle | src/utils/conversation_monitor.ts:64-67 | the selected ids are exactly the active conversations idle for more than a minute, in ascending id order |
| ConversationMonitoring.TimeoutNoticesExact | src/utils/conversation_monitor.ts:75-86 | a conversation's notices are timeouts, one to each connected participant and no one else |
| ConversationMonitoring.SweepNoticesExact | src/utils/conversation_monitor.ts:72-94 | the sweep sends only `conversation-timeout`, to socket p about conversation c exactly when c was selected and p is a connected participant |
| ConversationMonitoring.NotifyTimeout | src/utils/conversation_monitor.ts:75-86 | the inner loop emits exactly the timeout notices of the conversation |
| ConversationMonitoring.DeletedExact | src/utils/conversation_monitor.ts:72-94 | a record is gone exactly when one of its `end_conversation` calls succeeded; its messages are gone exactly when a call got past the message deletion |
| ConversationMonitoring.EndEach | src/utils/conversation_monitor.ts:72-94 | every selected conversation is notified and ended; a failed deletion does not stop the loop, and only what was deleted is gone |
| ConversationMonitoring.ConversationMonitor.Start | src/utils/conversation_monitor.ts:30-42 | any running interval is cleared and exactly one new interval runs |
| ConversationMonitoring.ConversationMonitor.Stop | src/utils/conversation_monitor.ts:47-53 | no interval runs afterwards; stopping a stopped monitor does nothing |
| ConversationMonitoring.ConversationMonitor.CheckIdleConversations | src/utils/conversation_monitor.ts:58-98 | a failed query changes nothing; otherwise the idle conversations are notified and ended as `EndEach` states, and the waiting queue is not touched |
| UrlMasking.UrlEndShape | src/validators/message_validator.ts:8 | a URL match runs up to white space or the end of the text and holds no white space |
| UrlMasking.ScanExact | src/validators/message_validator.ts:69-82 | the scan loses nothing: the URLs put back between the pieces give the text again |
| UrlMasking.ExtractUrls | src/validators/message_validator.ts:69-82 | the processed text is the text with the k-th URL replaced by `[URL_k]`, and the URLs are listed in order |
| UrlMasking.ReplaceFirst | src/validators/message_validator.ts:93 | only the first occurrence is replaced; the text is unchanged when there is none |
| UrlMasking.RestoreUrls | src/validators/message_validator.ts:90-102 | the result is the placeholders replaced, one first occurrence at a time, by their URLs |
| UrlMasking.RestoreInverse | src/validators/message_validator.ts:69-102 | restoring the masked text gives the original back, when it holds no `[URL_` text of its own |
| UrlMasking.MaskedLength | src/validators/message_validator.ts:71-75 | masking trades the URLs' length for the placeholders' length |
| UrlMasking.RestoreBounded | src/validators/message_validator.ts:90-102 | restoring into text no longer than the masked text gives text no longer than the original (for up to 100 URLs) |
| UrlMasking.AsWrittenAgrees | src/validators/message_validator.ts:93 | the restore as written agrees with the literal one when no URL contains `$` |
| UrlMasking.DollarUrlMangled | src/validators/message_validator.ts:93 | `http://$$` comes back as `http://$` as written, and unchanged from the literal restore |
| UrlMasking.MaskQuoteUrl | src/validators/message_validator.ts:69-82 | the message `http://$' 123` masks to `[URL_0] 123` with the one URL `http://$'` |
| UrlMasking.RestoreQuote | src/validators/message_validator.ts:90-102 | as written, restoring a URL `http://$'` into `[URL_0]` followed by r gives the URL's scheme, then r twice |
| UrlMasking.DollarQuoteGrows | src/validators/message_validator.ts:93 | as written, a URL ending in `$'` makes the restored text longer than the message it came from |
| Text.Trim | src/validators/message_validator.ts:121 | the trimmed text has no white space at either end and is empty exactly when the text is all white space |
| Text.SplitWords | src/validators/message_validator.ts:45 | splitting on white space gives at least one piece and no piece holds white space |
| Text.SplitWordsRebuilds | src/validators/message_validator.ts:45 | splitting loses only white space: the pieces, joined by non-empty runs of white space, give the text back, and every piece but the first and last is non-empty |
| Text.UnitsConcat | src/validators/message_validator.ts:116 | a text's length in UTF-16 code units is the sum of its parts' lengths |
| Text.RunBackWindow | src/validators/message_validator.ts:34 | a run of at least n equal characters ending at j is exactly a window of n copies ending there |
| MessageValidator.ExcessiveRepeatsByRun | src/validators/message_validator.ts:32-36 | the repeat pattern matches exactly when some non-line-terminator ends a run longer than `max_repeats` |
| MessageValidator.HasRepeatedWords | src/validators/message_validator.ts:43-62 | true exactly when, among the words of the lower-cased text (after the empty word the loop starts from), more than `max_repeats` equal words follow each other |
| MessageValidator.ValidateMessage | src/validators/message_validator.ts:109-147 | missing or empty content is invalid; more than 1000 UTF-16 code units is too long; all white space is blank; everything else goes to the content checks on the masked text, in the source's order |
| MessageValidator.AstralTooLong | src/validators/message_validator.ts:116 | a message of more than 500 characters above U+FFFF, such as emoji, is too long, since each counts two code units |
| MessageValidator.ContentRejection | src/validators/message_validator.ts:128-146 | the checks on the masked text only ever report repeats, repeated words, diacritics or invalid characters |
| MessageValidator.PastTheGuards | src/validators/message_validator.ts:109-146 | a message of 1 to 1000 UTF-16 code units that is not all white space is judged by the content checks on its masked text alone |
| MessageValidator.IsValidMessage | src/validators/message_validator.ts:153-160 | true exactly when validation does not throw; then the message is non-blank text of at most 1000 UTF-16 code units |
| MessageValidator.SingleUrlAccepted | src/validators/message_validator.ts:125-146 | a message that is one URL is accepted whatever the URL holds: URL characters never cause a rejection |
| MessageValidator.PlaceholderPasses | src/validators/message_validator.ts:128-146 | the placeholder `[URL_0]` passes every content check |
| MessageValidator.Filter | src/validators/message_validator.ts:179 | removing disallowed characters leaves only allowed ones, and leaves all-allowed text unchanged |
| MessageValidator.NoLongRunIff | src/validators/message_validator.ts:32-36 | a text has no run of six is the same as `has_excessive_repeats` being false |
| MessageValidator.CollapseShape | src/validators/message_validator.ts:182 | collapsing runs never lengthens the text, keeps only its characters, leaves no run of six and keeps the last character |
| MessageValidator.CollapseKeeps | src/validators/message_validator.ts:182 | text without a run of six is unchanged by the collapse |
| MessageValidator.CleanedText | src/validators/message_validator.ts:179-182 | the cleaned text is no longer than the masked one, holds only allowed characters and would pass the repeat check |
| MessageValidator.Truncated | src/validators/message_validator.ts:173 | the kept part is the longest prefix of whole characters that fits in 1000 UTF-16 code units, the whole message when it fits |
| MessageValidator.SanitizeMessage | src/validators/message_validator.ts:167-188 | missing or empty content gives ""; the result has no white space at either end |
| MessageValidator.SanitizeBounded | src/validators/message_validator.ts:167-188 | the result is at most 1000 code points long (for up to 100 URLs in the kept part) |
| MessageValidator.SanitizeAccepted | src/validators/message_validator.ts:167-188 | a message the validator accepts, with no `[URL_` text of its own, is only trimmed, and never sanitized to "" |
| SendMessage.Gates | src/controllers/socket/handle_send_message.ts:14-69 | the first failing gate decides the outcome; a message is relayed exactly when it passes the throttle and the validator, a conversation is found and the save succeeds, and it goes to that conversation |
| SendMessage.Deliver | src/controllers/socket/handle_send_message.ts:34-69 | lookup, then save, then relay: one event per exit path; nothing is stored unless the save is reached |
| SendMessage.HandleSendMessage | src/controllers/socket/handle_send_message.ts:9-69 | the rate entry is updated whatever happens; the outcome is `Gates` of the throttle verdict, the validation, the lookup and the save; exactly one event is emitted; the sanitized text is stored and relayed with the message time |
| SocketServer.HandleAddReaction | src/controllers/socket/setup_socket_server.ts:33-83 | the sender joins the room if needed (creating it), and the reaction goes unchanged to the room including the sender; a bad payload yields an error |
| SocketServer.OnConnection | src/controllers/socket/setup_socket_server.ts:92-105 | the socket is registered and admitted with a fresh rate entry, then handled by `handle_new_user` |
| SocketServer.OnFindNewPartner | src/controllers/socket/setup_socket_server.ts:118-121 | `handle_new_user` again, without ending the socket's current conversation, which stays active |
| SocketServer.SweepStatesUntouched | src/controllers/socket/setup_socket_server.ts:124-131 | a sweep never gives a state to an id that is not queued, so the disconnected socket's state stays deleted |
| SocketServer.OnDisconnect | src/controllers/socket/setup_socket_server.ts:124-132 | afterwards the socket is not live, has no rate entry and no user state, and every waiting id is a connected socket |

## Left out

- Logging (`logger`, `console.log`) and the statistics broadcast `update_user_stats` are not modelled. They have no effect on state the model keeps.
- Timers are not modelled.
  - The 3 s and 10 s intervals and the rate stores' eviction timers are not modelled; their bodies are the sweep and the `Evict` methods.
  - The 500 ms catch-up sweep after a disconnect is returned as a flag by `Disconnect.HandleUserDisconnect`.
- Asynchronous interleaving between handlers at `await` points is not modelled. Each handler runs to completion.
- The database is not modelled directly.
  - Each MongoDB call is a map update whose failure is an argument.
  - `findOne` returns the matching conversation with the smallest id. Ids are handed out in increasing order, standing for natural order.
  - ObjectIds are natural numbers.
- The Mongoose schema checks are folded in as follows.
  - `create_conversation` refuses a participant list whose length is not 2.
  - The `required` check on a saved message's content is part of the `saveOutcome` argument.
- Socket.IO transport:
  - rooms are keyed by conversation id, and a reaction's conversation id is any such id;
  - the socket request's `app` is the one server app, so `socketStore` is the shared dictionary (server.ts is not part of this model);
  - a reaction payload that cannot be destructured is `None`.
- The Unicode property classes (`\p{L}` and the rest) and `toLowerCase` are a `CharTables` parameter. `toLowerCase` is a function on whole texts, since it can change a text's length (`İ`) and depends on context (final `Σ`). Only the facts `WellFormed` lists are assumed of them: lower-casing keeps text without white space free of it and non-empty text non-empty.
- Strings are sequences of code points. The source's `length` and `slice` count UTF-16 code units; `Text.Units` counts them and `Text.Fit` finds where a slice cuts. The patterns without the `u` flag (the URL pattern and the diacritics class) see an astral character as two code units, and none of their classes tells those apart from one code point.
- `MessageValidator.Truncated`: when the 1000th code unit is the first half of a surrogate pair, the source keeps that lone half and the model drops it. The character filter removes the lone half again unless it ends a URL.
- The `catch` branches of `handle_new_user` and `match_all_waiting_users` are not modelled. `match_users` catches its own failure, so in this model nothing else can throw there.
- The HTTP rate limiter's `ApiError` and `next()` are not modelled; they are `Outcome` values. Response headers are a `Headers` value.
- `get_messages`, the routes, the error-handling middleware and the server bootstrap are not part of this model.
- `MessageValidator.SanitizeBounded`: the bound is proved only when the kept part holds at most 100 URLs. From `[URL_100]` on, a placeholder can be longer than its URL. The bound is 1000 code points, not 1000 code units. It is proved for the literal restore; as written, a URL ending in `$'` makes the result longer than the kept part (`UrlMasking.DollarQuoteGrows`).
- `MessageValidator.SanitizeMessage`: puts the URLs back with the literal restore, the corrected one under Findings. As written, `$` patterns in a URL are expanded (`UrlMasking.DollarUrlMangled`, `UrlMasking.RestoreQuote`).
- `MessageValidator.SanitizeAccepted`: holds for the literal restore. As written, an accepted message whose URL holds `$$`, `$&`, `` $` `` or `$'` is changed by sanitising.
- `UrlMasking.RestoreUrls`: the literal restore. `UrlMasking.RestoredAsWritten` models the source's pattern expansion, and the Findings row compares the two.
- `UrlMasking.ReplaceFirst`: inserts the URL literally. `UrlMasking.ReplaceFirstAsWritten` models `String.prototype.replace` with `$` patterns.
- `SendMessage.HandleSendMessage`: stores and relays the text of the literal restore, so a URL holding `$` patterns is relayed unchanged rather than expanded.
- `Pairing.ImmediatePairingRemovesBoth`: requires a queue with distinct ids. As written, the queue can hold an id twice (`Disconnect.RequeueDuplicates`, under Findings).
- `Pairing.SweepMatchedEven`: requires a queue with distinct ids. With an id queued twice, the sweep can pair a socket with itself, and the count fails (`Disconnect.RequeueDuplicates`).
- `SocketServer.OnConnection`: the contract states the queue and log effects of `handle_new_user`. The store, room and user-state effects are stated by `Matchmaking.HandleNewUser`.
- `SocketServer.OnFindNewPartner`: the contract states only the waiting case and that active conversations stay active. The full effect is that of `Matchmaking.HandleNewUser`.
- `SocketServer.OnDisconnect`: the contract states the final invariants, not the full new state. The steps are specified by the methods it calls.
- `SocketServer.OnDisconnect`: runs `handle_user_disconnect` to completion before the cleanup and the sweep. The source does not await it (setup_socket_server.ts:125): only the queue filter runs before its first `await` (handle_user_disconnect.ts:13-20, 23), so the partner is pushed back, and the socket's state cleared, after the sweep at setup_socket_server.ts:131 has pruned the queue. That sweep therefore cannot pair the handed-back partner, while the model's sweep can; the partner is paired by the 500 ms catch-up sweep or the interval instead.

## Findings

| source | as written | input that shows it | evidently intended | confidence | as-written member | corrected member |
|---|---|---|---|---|---|---|
| src/validators/message_validator.ts:93 | `restored.replace("[URL_i]", urls[i])` passes the URL as a replacement pattern, so `$$`, `$&`, `` $` `` and `$'` in a URL are expanded | the message `http://$$` is stored and relayed as `http://$` | each URL is put back literally, so that masking and restoring gives the message back | not executed | UrlMasking.DollarUrlMangled | UrlMasking.RestoreInverse |
| src/validators/message_validator.ts:93 | the same expansion of `$'` copies the rest of the text after the placeholder | the message `http://$' 123` is sanitised to `http:// 123 123`, longer than the message; `http://$'`, a space and 990 letters with no run of six (1000 code units) is sanitised to 1989 characters | restoring puts back exactly what was masked, so the sanitised text stays within the length limit | not executed | UrlMasking.DollarQuoteGrows | UrlMasking.RestoreBounded |
| src/controllers/socket/handle_user_disconnect.ts:44 | the notified partner is pushed onto the queue without checking whether it is already waiting | socket a asks for a new partner while paired with b and waits; b disconnects; a is pushed again, the queue is [a, a], and the sweep calls `match_users(a, a)` | a socket is waiting at most once, so it is never paired with itself | not executed | Disconnect.RequeueDuplicates | Disconnect.RequeueOnceKeepsDistinct |
