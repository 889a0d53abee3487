/** The shared user-state dictionary (`socketStore`) and
    `update_user_state`. The statistics broadcast that follows every update
    is observability only and is not modelled. */
module UserStates {
  import opened Common

  /** `update_user_state(id, state)`: `null` deletes the key, anything else
      sets it. */
  function Updated(states: map<Id, UserState>, id: Id, state: Option<UserState>): (r: map<Id, UserState>)
    ensures state.None? ==> id !in r
    ensures state.Some? ==> id in r && r[id] == state.value
    ensures forall other | other != id :: (other in r <==> other in states)
    ensures forall other | other != id && other in r :: r[other] == states[other]
  {
    if state.None? then states - {id} else states[id := state.value]
  }

  /** Applying the same update twice is the same as applying it once. */
  lemma UpdatedIdempotent(states: map<Id, UserState>, id: Id, state: Option<UserState>)
    ensures Updated(Updated(states, id, state), id, state) == Updated(states, id, state)
  {
    var once := Updated(states, id, state);
    var twice := Updated(once, id, state);
    assert twice.Keys == once.Keys;
  }

  /** Updates of different ids commute. */
  lemma UpdatedCommute(states: map<Id, UserState>, a: Id, sa: Option<UserState>, b: Id, sb: Option<UserState>)
    requires a != b
    ensures Updated(Updated(states, a, sa), b, sb) == Updated(Updated(states, b, sb), a, sa)
  {
    var ab := Updated(Updated(states, a, sa), b, sb);
    var ba := Updated(Updated(states, b, sb), a, sa);
    assert ab.Keys == ba.Keys;
  }

  class UserStateMap {
    var states: map<Id, UserState>

    constructor ()
      ensures states == map[]
    {
      states := map[];
    }

    method Update(id: Id, state: Option<UserState>)
      modifies this
      ensures states == Updated(old(states), id, state)
    {
      if state.None? {
        states := states - {id};
      } else {
        states := states[id := state.value];
      }
    }
  }
}
