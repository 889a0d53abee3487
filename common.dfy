/** Shared vocabulary of the chat server: identifiers, optional values,
    per-user states and the events pushed to clients. */
module Common {

  /** A socket id: opaque, unique per connection. */
  type Id = string

  /** A conversation id. Room names are the conversation ids, so rooms are
      keyed by the same type. */
  type ConvId = nat

  datatype Option<+T> = None | Some(value: T)

  /** The projection kept in the shared user-state dictionary. */
  datatype UserState = Waiting | Matched

  /** Why the message validator refused a message (each one is an ApiError
      with status 400 in the source). */
  datatype Rejection =
    | InvalidContent
    | TooLong
    | Blank
    | ExcessiveRepeats
    | RepeatedWords
    | ExcessiveDiacritics
    | InvalidCharacters

  /** The distinct `error` payloads the socket handlers emit. */
  datatype ErrorMessage =
    | MatchFailed
    | TooFast
    | Invalid(rejection: Rejection)
    | ConversationNotFound
    | SendFailed
    | ReactionFailed

  /** Events pushed to clients. */
  datatype Event =
    | WaitingEvent
    | MatchedEvent(conversationId: ConvId, partnerId: Id)
    | ReceiveMessage(senderId: Id, content: string, createdAt: int)
    | ReceiveReaction(messageIndex: int, emoji: string)
    | PartnerDisconnected
    | ConversationTimeout(conversationId: ConvId)
    | ErrorEvent(message: ErrorMessage)

  /** One entry of the transport's log: an event sent to one socket, or to a
      room together with the members the room had at that moment. */
  datatype Emission =
    | ToSocket(target: Id, event: Event)
    | ToRoom(room: ConvId, members: set<Id>, event: Event)

  /** The entries of `q` that belong to `s`, in their original order. */
  function Restrict(q: seq<Id>, s: set<Id>): (r: seq<Id>)
    ensures |r| <= |q|
    ensures forall x :: x in r <==> x in q && x in s
  {
    if q == [] then []
    else if q[0] in s then [q[0]] + Restrict(q[1..], s)
    else Restrict(q[1..], s)
  }

  /** The entries of `q` that do not belong to `s`, in their original order. */
  function Exclude(q: seq<Id>, s: set<Id>): (r: seq<Id>)
    ensures |r| <= |q|
    ensures forall x :: x in r <==> x in q && x !in s
  {
    if q == [] then []
    else if q[0] !in s then [q[0]] + Exclude(q[1..], s)
    else Exclude(q[1..], s)
  }

  /** Filtering distributes over concatenation: kept entries keep their
      relative order. */
  lemma {:induction false} RestrictConcat(a: seq<Id>, b: seq<Id>, s: set<Id>)
    ensures Restrict(a + b, s) == Restrict(a, s) + Restrict(b, s)
  {
    if a == [] {
      assert a + b == b;
    } else {
      assert (a + b)[0] == a[0] && (a + b)[1..] == a[1..] + b;
      RestrictConcat(a[1..], b, s);
    }
  }

  lemma {:induction false} ExcludeConcat(a: seq<Id>, b: seq<Id>, s: set<Id>)
    ensures Exclude(a + b, s) == Exclude(a, s) + Exclude(b, s)
  {
    if a == [] {
      assert a + b == b;
    } else {
      assert (a + b)[0] == a[0] && (a + b)[1..] == a[1..] + b;
      ExcludeConcat(a[1..], b, s);
    }
  }

  /** Restricting to a set that holds every entry changes nothing. */
  lemma {:induction false} RestrictAll(q: seq<Id>, s: set<Id>)
    requires forall k | 0 <= k < |q| :: q[k] in s
    ensures Restrict(q, s) == q
  {
    if q != [] {
      RestrictAll(q[1..], s);
    }
  }

  /** Excluding a set that holds no entry changes nothing. */
  lemma {:induction false} ExcludeNone(q: seq<Id>, s: set<Id>)
    requires forall k | 0 <= k < |q| :: q[k] !in s
    ensures Exclude(q, s) == q
  {
    if q != [] {
      ExcludeNone(q[1..], s);
    }
  }

  /** No id occurs twice. */
  predicate Distinct(q: seq<Id>) {
    forall a, b | 0 <= a < b < |q| :: q[a] != q[b]
  }

  /** Filtering a queue without duplicates leaves none. */
  lemma {:induction false} ExcludeDistinct(q: seq<Id>, s: set<Id>)
    requires Distinct(q)
    ensures Distinct(Exclude(q, s))
  {
    if q != [] {
      var rest := q[1..];
      assert Distinct(rest) by {
        forall a, b | 0 <= a < b < |rest| ensures rest[a] != rest[b] {
          assert rest[a] == q[a + 1] && rest[b] == q[b + 1];
        }
      }
      ExcludeDistinct(rest, s);
      if q[0] !in s {
        var e := Exclude(rest, s);
        assert q[0] !in rest by {
          forall k | 0 <= k < |rest| ensures rest[k] != q[0] {
            assert rest[k] == q[k + 1];
          }
        }
        var r := [q[0]] + e;
        forall a, b | 0 <= a < b < |r| ensures r[a] != r[b] {
          if a == 0 {
            assert r[b] in e;
          } else {
            assert r[a] == e[a - 1] && r[b] == e[b - 1];
          }
        }
      }
    }
  }
}
