/** The decisions `handle_new_user` and `match_all_waiting_users` take over
    the waiting queue, as functions of the queue, the set of connected
    socket ids and, for the sweep, the outcome of every `match_users` call.
    The methods that carry them out on the shared queue are in module
    Matchmaking. */
module Pairing {
  import opened Common

  // ---------------------------------------------------------------------
  // Arrival of a user (handle_new_user)
  // ---------------------------------------------------------------------

  /** The first position at or after `from` whose socket is still connected. */
  function FirstLive(q: seq<Id>, live: set<Id>, from: nat): (r: Option<nat>)
    decreases |q| - from
    ensures r.Some? ==> from <= r.value < |q| && q[r.value] in live
    ensures r.Some? ==> forall k | from <= k < r.value :: q[k] !in live
    ensures r.None? ==> forall k | from <= k < |q| :: q[k] !in live
  {
    if from >= |q| then None
    else if q[from] in live then Some(from)
    else FirstLive(q, live, from + 1)
  }

  /** What `handle_new_user` does with an arriving socket id. */
  datatype Admission =
    | AlreadyQueued        // the id is waiting already: nothing happens
    | PairWith(index: nat) // pair at once with the entry at `index`
    | Enqueue              // nobody connected is waiting: wait

  function Admit(q: seq<Id>, live: set<Id>, id: Id): (r: Admission)
    ensures r.AlreadyQueued? <==> id in q
    ensures r.PairWith? ==> id !in q && r.index < |q| && q[r.index] in live
    ensures r.PairWith? ==> forall k | 0 <= k < r.index :: q[k] !in live
    ensures r.Enqueue? <==> id !in q && forall k | 0 <= k < |q| :: q[k] !in live
  {
    if id in q then AlreadyQueued
    else match FirstLive(q, live, 0)
      case Some(i) => PairWith(i)
      case None => Enqueue
  }

  /** `q.splice(i, 1)` */
  function Spliced(q: seq<Id>, i: nat): (r: seq<Id>)
    requires i < |q|
  {
    q[..i] + q[i + 1..]
  }

  /** After an immediate pairing neither socket is left waiting, as long as
      the queue held no id twice; everyone else keeps their place in line. */
  lemma ImmediatePairingRemovesBoth(q: seq<Id>, live: set<Id>, id: Id)
    requires Distinct(q) && Admit(q, live, id).PairWith?
    ensures var i := Admit(q, live, id).index;
      id !in Spliced(q, i) && q[i] !in Spliced(q, i) &&
      Spliced(q, i) == Exclude(q, {q[i]})
  {
    var i := Admit(q, live, id).index;
    SplicedOnly(q, i, q[i]);
  }

  /** Removing the only occurrence of `x` from a queue excludes `x`. */
  lemma {:induction false} SplicedOnly(q: seq<Id>, i: nat, x: Id)
    requires i < |q| && q[i] == x && forall k | 0 <= k < |q| && k != i :: q[k] != x
    ensures Spliced(q, i) == Exclude(q, {x})
    decreases i
  {
    var rest := q[1..];
    if i == 0 {
      forall k | 0 <= k < |rest| ensures rest[k] !in {x} {
        assert rest[k] == q[k + 1];
      }
      ExcludeNone(rest, {x});
      assert Spliced(q, 0) == rest;
    } else {
      forall k | 0 <= k < |rest| && k != i - 1 ensures rest[k] != x {
        assert rest[k] == q[k + 1];
      }
      SplicedOnly(rest, i - 1, x);
      assert q[..i] == [q[0]] + rest[..i - 1] && q[i + 1..] == rest[i..];
      assert Spliced(q, i) == [q[0]] + Spliced(rest, i - 1);
      assert q[0] != x;
    }
  }

  // ---------------------------------------------------------------------
  // Catch-up sweep (match_all_waiting_users)
  // ---------------------------------------------------------------------

  /** One call of `match_users(queue[i], queue[j])` and whether it succeeded. */
  datatype Attempt = Attempt(i: nat, j: nat, ok: bool)

  /** The sweep's state: the `matched_users` set and the calls made so far. */
  datatype Pass = Pass(matched: set<Id>, attempts: seq<Attempt>)

  /** The inner loop: look for a partner for position `i` from position `j`
      on. The k-th `match_users` call of the sweep succeeds iff `ok(k)`. */
  function PartnerSearch(q: seq<Id>, ok: nat -> bool, i: nat, j: nat, p: Pass): Pass
    requires i < |q|
    decreases |q| - j
  {
    if j >= |q| then p
    else if q[j] in p.matched then PartnerSearch(q, ok, i, j + 1, p)
    else if ok(|p.attempts|) then Pass(p.matched + {q[i], q[j]}, p.attempts + [Attempt(i, j, true)])
    else PartnerSearch(q, ok, i, j + 1, Pass(p.matched, p.attempts + [Attempt(i, j, false)]))
  }

  /** The outer loop, from position `i` on. */
  function SweepFrom(q: seq<Id>, ok: nat -> bool, i: nat, p: Pass): Pass
    decreases |q| - i
  {
    if i >= |q| then p
    else if q[i] in p.matched then SweepFrom(q, ok, i + 1, p)
    else SweepFrom(q, ok, i + 1, PartnerSearch(q, ok, i, i + 1, p))
  }

  /** The whole pairing pass over an already pruned queue. */
  function Sweep(q: seq<Id>, ok: nat -> bool): Pass {
    SweepFrom(q, ok, 0, Pass({}, []))
  }

  /** The queue the sweep leaves behind. */
  function SweepRemaining(q: seq<Id>, ok: nat -> bool): seq<Id> {
    Exclude(q, Sweep(q, ok).matched)
  }

  /** When nobody connected is waiting, pruning empties the queue, so after
      the push and the sweep the newcomer is waiting alone (or nobody is,
      if the newcomer has gone away meanwhile). */
  lemma EnqueueLeavesOnlyNewcomer(q: seq<Id>, live: set<Id>, id: Id, ok: nat -> bool)
    requires Admit(q, live, id).Enqueue?
    ensures var pruned := Restrict(Restrict(q, live) + [id], live);
      && pruned == (if id in live then [id] else [])
      && Sweep(pruned, ok) == Pass({}, [])
      && SweepRemaining(pruned, ok) == pruned
  {
    assert Restrict(q, live) == [];
    assert Restrict(q, live) + [id] == [id];
    var pruned := Restrict([id], live);
    assert pruned == (if id in live then [id] else []);
    if id in live {
      assert PartnerSearch(pruned, ok, 0, 1, Pass({}, [])) == Pass({}, []);
      assert SweepFrom(pruned, ok, 1, Pass({}, [])) == Pass({}, []);
      assert Sweep(pruned, ok) == Pass({}, []);
    }
    ExcludeNone(pruned, {});
  }

  predicate InRange(q: seq<Id>, att: seq<Attempt>) {
    forall k | 0 <= k < |att| :: att[k].i < att[k].j < |q|
  }

  function PairIds(q: seq<Id>, a: Attempt): set<Id>
    requires a.i < |q| && a.j < |q|
  {
    {q[a.i], q[a.j]}
  }

  /** The ids of all successful calls. */
  function MatchedBy(q: seq<Id>, att: seq<Attempt>): set<Id>
    requires InRange(q, att)
    decreases |att|
  {
    if att == [] then {}
    else
      var last := att[|att| - 1];
      MatchedBy(q, att[..|att| - 1]) + (if last.ok then PairIds(q, last) else {})
  }

  /** Number of successful calls. */
  function Successes(att: seq<Attempt>): nat
    decreases |att|
  {
    if att == [] then 0
    else Successes(att[..|att| - 1]) + (if att[|att| - 1].ok then 1 else 0)
  }

  /** No socket id takes part in two successful pairings. */
  predicate Disjoint(q: seq<Id>, att: seq<Attempt>)
    requires InRange(q, att)
  {
    forall s, t | 0 <= s < t < |att| && att[s].ok && att[t].ok :: PairIds(q, att[s]) !! PairIds(q, att[t])
  }

  /** Successful pairings are formed in queue order of their first member. */
  predicate OkAscending(att: seq<Attempt>) {
    forall s, t | 0 <= s < t < |att| && att[s].ok && att[t].ok :: att[s].i < att[t].i
  }

  /** What holds of the sweep's state before the outer loop reaches `i`. */
  predicate Shaped(q: seq<Id>, i: nat, p: Pass) {
    && InRange(q, p.attempts)
    && p.matched == MatchedBy(q, p.attempts)
    && Disjoint(q, p.attempts)
    && OkAscending(p.attempts)
    && (forall k | 0 <= k < |p.attempts| :: p.attempts[k].i < i)
  }

  lemma {:induction false} MatchedByCovers(q: seq<Id>, att: seq<Attempt>, s: nat)
    requires InRange(q, att) && s < |att| && att[s].ok
    ensures PairIds(q, att[s]) <= MatchedBy(q, att)
  {
    if s < |att| - 1 {
      MatchedByCovers(q, att[..|att| - 1], s);
    }
  }

  lemma {:induction false} MatchedByWitness(q: seq<Id>, att: seq<Attempt>, x: Id) returns (s: nat)
    requires InRange(q, att) && x in MatchedBy(q, att)
    ensures s < |att| && att[s].ok && x in PairIds(q, att[s])
  {
    var last := att[|att| - 1];
    if last.ok && x in PairIds(q, last) {
      s := |att| - 1;
    } else {
      s := MatchedByWitness(q, att[..|att| - 1], x);
    }
  }

  /** The sweep's state while the inner loop looks for a partner for `i`. */
  predicate Partial(q: seq<Id>, i: nat, p: Pass) {
    && InRange(q, p.attempts)
    && p.matched == MatchedBy(q, p.attempts)
    && Disjoint(q, p.attempts)
    && OkAscending(p.attempts)
    && (forall k | 0 <= k < |p.attempts| :: p.attempts[k].i <= i)
    && (forall k | 0 <= k < |p.attempts| && p.attempts[k].ok :: p.attempts[k].i < i)
  }

  /** Recording one more call for position `i`, with an unmatched partner. */
  lemma Extended(q: seq<Id>, i: nat, p: Pass, a: Attempt)
    requires Partial(q, i, p) && a.i == i < a.j < |q|
    requires q[i] !in p.matched && q[a.j] !in p.matched
    ensures var p' := Pass(p.matched + (if a.ok then PairIds(q, a) else {}), p.attempts + [a]);
      Shaped(q, i + 1, p') && (!a.ok ==> Partial(q, i, p'))
  {
    var att := p.attempts + [a];
    assert att[..|att| - 1] == p.attempts;
    assert InRange(q, att);
    assert MatchedBy(q, att) == p.matched + (if a.ok then PairIds(q, a) else {});
    forall s, t | 0 <= s < t < |att| && att[s].ok && att[t].ok
      ensures PairIds(q, att[s]) !! PairIds(q, att[t])
    {
      if t == |att| - 1 {
        MatchedByCovers(q, p.attempts, s);
      } else {
        assert att[s] == p.attempts[s] && att[t] == p.attempts[t];
      }
    }
  }

  lemma {:induction false} PartnerSearchShaped(q: seq<Id>, ok: nat -> bool, i: nat, j: nat, p: Pass)
    requires i < |q| && i < j && q[i] !in p.matched && Partial(q, i, p)
    ensures Shaped(q, i + 1, PartnerSearch(q, ok, i, j, p))
    decreases |q| - j
  {
    if j >= |q| {
    } else if q[j] in p.matched {
      PartnerSearchShaped(q, ok, i, j + 1, p);
    } else {
      var a := Attempt(i, j, ok(|p.attempts|));
      Extended(q, i, p, a);
      if !a.ok {
        PartnerSearchShaped(q, ok, i, j + 1, Pass(p.matched, p.attempts + [a]));
      }
    }
  }

  lemma {:induction false} SweepFromShaped(q: seq<Id>, ok: nat -> bool, i: nat, p: Pass)
    requires Shaped(q, i, p)
    ensures Shaped(q, if i < |q| then |q| else i, SweepFrom(q, ok, i, p))
    decreases |q| - i
  {
    if i >= |q| {
    } else if q[i] in p.matched {
      SweepFromShaped(q, ok, i + 1, p);
    } else {
      PartnerSearchShaped(q, ok, i, i + 1, p);
      SweepFromShaped(q, ok, i + 1, PartnerSearch(q, ok, i, i + 1, p));
    }
  }

  /** Every call pairs a position with a later one; the pairs that succeed
      share no socket id, are formed in queue order, and `matched_users` is
      exactly the set of their ids. */
  lemma SweepPairsDisjoint(q: seq<Id>, ok: nat -> bool)
    ensures var p := Sweep(q, ok);
      && InRange(q, p.attempts)
      && p.matched == MatchedBy(q, p.attempts)
      && Disjoint(q, p.attempts)
      && OkAscending(p.attempts)
  {
    SweepFromShaped(q, ok, 0, Pass({}, []));
  }

  lemma {:induction false} MatchedBySize(q: seq<Id>, att: seq<Attempt>)
    requires Distinct(q) && InRange(q, att) && Disjoint(q, att)
    ensures |MatchedBy(q, att)| == 2 * Successes(att)
    decreases |att|
  {
    if att != [] {
      var prefix := att[..|att| - 1];
      var last := att[|att| - 1];
      assert Disjoint(q, prefix) by {
        forall s, t | 0 <= s < t < |prefix| && prefix[s].ok && prefix[t].ok
          ensures PairIds(q, prefix[s]) !! PairIds(q, prefix[t])
        {
          assert prefix[s] == att[s] && prefix[t] == att[t];
        }
      }
      MatchedBySize(q, prefix);
      if last.ok {
        assert q[last.i] != q[last.j];
        assert |PairIds(q, last)| == 2;
        forall x | x in MatchedBy(q, prefix) ensures x !in PairIds(q, last) {
          var s := MatchedByWitness(q, prefix, x);
          assert prefix[s] == att[s];
        }
        assert MatchedBy(q, prefix) !! PairIds(q, last);
      }
    }
  }

  /** With no id waiting twice, `matched_users` holds two ids per pairing
      formed, so its size is even. */
  lemma SweepMatchedEven(q: seq<Id>, ok: nat -> bool)
    requires Distinct(q)
    ensures |Sweep(q, ok).matched| == 2 * Successes(Sweep(q, ok).attempts)
  {
    SweepPairsDisjoint(q, ok);
    MatchedBySize(q, Sweep(q, ok).attempts);
  }

  lemma {:induction false} ExcludeMonotone(q: seq<Id>, m: set<Id>, m': set<Id>)
    requires m <= m'
    ensures |Exclude(q, m')| <= |Exclude(q, m)|
  {
    if q != [] {
      ExcludeMonotone(q[1..], m, m');
    }
  }

  /** With every call succeeding, the inner loop either pairs `q[i]` or finds
      that every later entry is already matched. */
  lemma {:induction false} PartnerSearchAllOk(q: seq<Id>, ok: nat -> bool, i: nat, j: nat, p: Pass)
    requires forall k :: ok(k)
    requires i < |q|
    ensures var r := PartnerSearch(q, ok, i, j, p);
      p.matched <= r.matched &&
      ((r.matched == p.matched && forall k | j <= k < |q| :: q[k] in p.matched) || q[i] in r.matched)
    decreases |q| - j
  {
    if j < |q| && q[j] in p.matched {
      PartnerSearchAllOk(q, ok, i, j + 1, p);
    }
  }

  /** The invariant of the all-success argument: at most one entry before `i`
      is unmatched, and if one is, everything from `i` on is matched. */
  predicate AtMostOneLeft(q: seq<Id>, i: nat, m: set<Id>)
    requires i <= |q|
  {
    |Exclude(q[..i], m)| <= 1 &&
    (|Exclude(q[..i], m)| == 1 ==> forall k | i <= k < |q| :: q[k] in m)
  }

  lemma {:induction false} SweepFromAllOk(q: seq<Id>, ok: nat -> bool, i: nat, p: Pass)
    requires forall k :: ok(k)
    requires i <= |q| && AtMostOneLeft(q, i, p.matched)
    ensures |Exclude(q, SweepFrom(q, ok, i, p).matched)| <= 1
    decreases |q| - i
  {
    if i == |q| {
      assert q[..i] == q;
    } else {
      assert q[..i + 1] == q[..i] + [q[i]];
      if q[i] in p.matched {
        ExcludeConcat(q[..i], [q[i]], p.matched);
        assert Exclude([q[i]], p.matched) == [];
        SweepFromAllOk(q, ok, i + 1, p);
      } else {
        var r := PartnerSearch(q, ok, i, i + 1, p);
        PartnerSearchAllOk(q, ok, i, i + 1, p);
        ExcludeConcat(q[..i], [q[i]], r.matched);
        assert |Exclude(q[..i], p.matched)| == 0;
        ExcludeMonotone(q[..i], p.matched, r.matched);
        if q[i] in r.matched {
          assert Exclude([q[i]], r.matched) == [];
        } else {
          assert Exclude([q[i]], r.matched) == [q[i]];
        }
        SweepFromAllOk(q, ok, i + 1, r);
      }
    }
  }

  /** If every `match_users` call succeeds, at most one user is left waiting. */
  lemma SweepAllOkLeavesAtMostOne(q: seq<Id>, ok: nat -> bool)
    requires forall k :: ok(k)
    ensures |SweepRemaining(q, ok)| <= 1
  {
    assert q[..0] == [];
    SweepFromAllOk(q, ok, 0, Pass({}, []));
  }

  /** The pairs (0,1), (2,3), ... of the first `n` pairings. */
  function Ladder(n: nat): (r: seq<Attempt>)
    ensures |r| == n
    ensures forall s | 0 <= s < n :: r[s] == Attempt(2 * s, 2 * s + 1, true)
  {
    if n == 0 then [] else Ladder(n - 1) + [Attempt(2 * (n - 1), 2 * (n - 1) + 1, true)]
  }

  function Prefix(q: seq<Id>, n: nat): set<Id>
    requires n <= |q|
  {
    set k | 0 <= k < n :: q[k]
  }

  lemma {:induction false} SweepFromLadder(q: seq<Id>, ok: nat -> bool, s: nat)
    requires Distinct(q) && forall k :: ok(k)
    requires 2 * s <= |q|
    ensures SweepFrom(q, ok, 2 * s, Pass(Prefix(q, 2 * s), Ladder(s))) ==
            Pass(Prefix(q, 2 * (|q| / 2)), Ladder(|q| / 2))
    decreases |q| - 2 * s
  {
    var i := 2 * s;
    var p := Pass(Prefix(q, i), Ladder(s));
    if i == |q| {
    } else if i + 1 == |q| {
      assert q[i] !in p.matched;
      assert PartnerSearch(q, ok, i, i + 1, p) == p;
    } else {
      assert q[i] !in p.matched;
      assert q[i + 1] !in p.matched;
      var p' := Pass(Prefix(q, i + 2), Ladder(s + 1));
      assert Prefix(q, i + 2) == p.matched + {q[i], q[i + 1]};
      assert |Ladder(s)| == s;
      assert PartnerSearch(q, ok, i, i + 1, p) == p';
      assert q[i + 1] in p'.matched;
      assert SweepFrom(q, ok, i + 1, p') == SweepFrom(q, ok, i + 2, p');
      SweepFromLadder(q, ok, s + 1);
    }
  }

  /** FIFO fairness: with no id waiting twice and every call succeeding, the
      sweep pairs the first with the second, the third with the fourth, and
      so on, and makes no other call. */
  lemma SweepIsFifo(q: seq<Id>, ok: nat -> bool)
    requires Distinct(q) && forall k :: ok(k)
    ensures Sweep(q, ok).attempts == Ladder(|q| / 2)
    ensures Sweep(q, ok).matched == Prefix(q, 2 * (|q| / 2))
  {
    assert Prefix(q, 0) == {};
    SweepFromLadder(q, ok, 0);
  }
}
