/**
 * The state of the backend as a value: the id counter (`ID_COUNTER`) and the
 * map from ids to events (`STORAGE`), with one function per operation and
 * the lemmas about arbitrary sequences of calls.
 */
module EventStore {
  import opened Events

  datatype Store = Store(counter: Uint64, events: map<Uint64, Event>)

  /** The state after an operation together with what the operation returned. */
  datatype Outcome<R> = Outcome(store: Store, result: R)

  /** The state on first boot: the counter cell starts at 0, the map is empty. */
  const Fresh: Store := Store(0, map[])

  /**
   * The store invariant: every key was minted already (it is below the
   * counter) and every event is filed under its own id.
   */
  predicate Inv(s: Store)
  {
    forall k :: k in s.events ==> k < s.counter && s.events[k].id == k
  }

  /** `get_event`: a query, answering the stored event or `NotFound(id)`. */
  function GetEvent(s: Store, id: Uint64): (r: Result<Event>)
    ensures r.Ok? <==> id in s.events
    ensures r.Ok? ==> r.value == s.events[id]
    ensures r.Err? ==> r.error == NotFound(id)
    ensures Inv(s) && r.Ok? ==> r.value.id == id
  {
    if id in s.events then Ok(s.events[id]) else Err(NotFound(id))
  }

  /**
   * `add_event`: the id is the counter value before the call, the counter
   * moves one up, and the new event is filed under its id.
   */
  function AddEvent(s: Store, p: EventPayload, now: Uint64): (o: Outcome<Option<Event>>)
    requires s.counter < MAX_UINT64
    ensures o.result.Some?
    ensures o.result.value.id == s.counter && o.store.counter == s.counter + 1
    ensures Carries(o.result.value, p)
    ensures o.result.value.createdAt == now && o.result.value.updatedAt == None
    ensures GetEvent(o.store, s.counter) == Ok(o.result.value)
    ensures forall k :: k != s.counter ==> GetEvent(o.store, k) == GetEvent(s, k)
    ensures Inv(s) ==> s.counter !in s.events && Inv(o.store)
  {
    var id := s.counter;
    var e := NewEvent(id, p, now);
    Outcome(Store(id + 1, s.events[e.id := e]), Some(e))
  }

  /**
   * `update_event`: on a present id, the payload fields are replaced and
   * `updatedAt` is stamped, and the result is re-inserted under its own id;
   * on an absent id nothing changes and `NotFound(id)` is returned.
   */
  function UpdateEvent(s: Store, id: Uint64, p: EventPayload, now: Uint64): (o: Outcome<Result<Event>>)
    ensures o.store.counter == s.counter
    ensures o.result.Ok? <==> id in s.events
    ensures o.result.Err? ==> o.result.error == NotFound(id) && o.store == s
    ensures o.result.Ok? ==>
      && o.result.value.id == s.events[id].id
      && o.result.value.createdAt == s.events[id].createdAt
      && Carries(o.result.value, p)
      && o.result.value.updatedAt == Some(now)
    ensures Inv(s) && o.result.Ok? ==> o.store.events == s.events[id := o.result.value]
    ensures Inv(s) ==> Inv(o.store)
  {
    if id in s.events then
      var e := Revised(s.events[id], p, now);
      Outcome(Store(s.counter, s.events[e.id := e]), Ok(e))
    else
      Outcome(s, Err(NotFound(id)))
  }

  /** `delete_event`: removes the id and answers what was stored there, or `NotFound(id)`. */
  function DeleteEvent(s: Store, id: Uint64): (o: Outcome<Result<Event>>)
    ensures o.store.counter == s.counter
    ensures o.result.Ok? <==> id in s.events
    ensures o.result.Ok? ==> o.result.value == s.events[id] && o.store.events == s.events - {id}
    ensures o.result.Err? ==> o.result.error == NotFound(id) && o.store == s
    ensures GetEvent(o.store, id) == Err(NotFound(id))
    ensures Inv(s) ==> Inv(o.store)
  {
    if id in s.events then
      Outcome(Store(s.counter, s.events - {id}), Ok(s.events[id]))
    else
      Outcome(s, Err(NotFound(id)))
  }

  // ---------------------------------------------------------------------
  // Sequences of calls

  /** One call of the public interface, with the clock reading it sees. */
  datatype Call =
    | Add(payload: EventPayload, now: Uint64)
    | Get(id: Uint64)
    | Update(id: Uint64, payload: EventPayload, now: Uint64)
    | Delete(id: Uint64)

  /** What a call answers: `add_event` an option, the others a result. */
  datatype Reply = Added(added: Option<Event>) | Answered(answer: Result<Event>)

  function Apply(s: Store, c: Call): (o: Outcome<Reply>)
    requires c.Add? ==> s.counter < MAX_UINT64
    ensures o.store.counter == if c.Add? then s.counter + 1 else s.counter
    ensures Inv(s) ==> Inv(o.store)
  {
    match c
    case Add(p, now) =>
      var a := AddEvent(s, p, now);
      Outcome(a.store, Added(a.result))
    case Get(id) =>
      Outcome(s, Answered(GetEvent(s, id)))
    case Update(id, p, now) =>
      var u := UpdateEvent(s, id, p, now);
      Outcome(u.store, Answered(u.result))
    case Delete(id) =>
      var d := DeleteEvent(s, id);
      Outcome(d.store, Answered(d.result))
  }

  /** The number of `add_event` calls in `calls`. */
  function Adds(calls: seq<Call>): nat
  {
    if calls == [] then 0 else (if calls[0].Add? then 1 else 0) + Adds(calls[1..])
  }

  /**
   * Runs the calls one after another, each to completion. Only the
   * `add_event` calls are bounded: there must be room below the `u64`
   * maximum for each of them to move the counter without overflow.
   */
  function Run(s: Store, calls: seq<Call>): (o: Outcome<seq<Reply>>)
    requires s.counter + Adds(calls) <= MAX_UINT64
    ensures |o.result| == |calls|
    ensures o.store.counter == s.counter + Adds(calls)
    decreases |calls|
  {
    if calls == [] then
      Outcome(s, [])
    else
      var first := Apply(s, calls[0]);
      var rest := Run(first.store, calls[1..]);
      Outcome(rest.store, [first.result] + rest.result)
  }

  /** The ids handed out by the `add_event` replies, in order. */
  function Minted(replies: seq<Reply>): seq<Uint64>
  {
    if replies == [] then []
    else
      (match replies[0]
       case Added(Some(e)) => [e.id]
       case _ => []) + Minted(replies[1..])
  }

  predicate StrictlyIncreasing(ids: seq<Uint64>)
  {
    forall i, j :: 0 <= i < j < |ids| ==> ids[i] < ids[j]
  }

  // ---------------------------------------------------------------------
  // Lemmas

  /** Every operation keeps the store invariant, so any run of calls does. */
  lemma {:induction false} RunPreservesInv(s: Store, calls: seq<Call>)
    requires Inv(s)
    requires s.counter + Adds(calls) <= MAX_UINT64
    ensures Inv(Run(s, calls).store)
    decreases |calls|
  {
    if calls != [] {
      RunPreservesInv(Apply(s, calls[0]).store, calls[1..]);
    }
  }

  /**
   * Across any sequence of calls the ids `add_event` returns are strictly
   * increasing, one per `add_event`, all at least the counter at the start
   * and below the counter at the end. Deletes and updates never move the
   * counter back, so no id is minted twice, and under the invariant no
   * minted id is a key that was already stored.
   */
  lemma {:induction false} RunMintsIncreasingIds(s: Store, calls: seq<Call>)
    requires s.counter + Adds(calls) <= MAX_UINT64
    ensures |Minted(Run(s, calls).result)| == Adds(calls)
    ensures StrictlyIncreasing(Minted(Run(s, calls).result))
    ensures forall i :: 0 <= i < |Minted(Run(s, calls).result)| ==>
      s.counter <= Minted(Run(s, calls).result)[i] < Run(s, calls).store.counter
    ensures Inv(s) ==> forall i :: 0 <= i < |Minted(Run(s, calls).result)| ==>
      Minted(Run(s, calls).result)[i] !in s.events
    decreases |calls|
  {
    if calls != [] {
      var first := Apply(s, calls[0]);
      var rest := Run(first.store, calls[1..]);
      RunMintsIncreasingIds(first.store, calls[1..]);
      var replies := [first.result] + rest.result;
      assert Run(s, calls).result == replies;
      assert replies[1..] == rest.result;
      var head := match first.result case Added(Some(e)) => [e.id] case _ => [];
      assert Minted(replies) == head + Minted(rest.result);
      if calls[0].Add? {
        assert head == [s.counter];
      } else {
        assert head == [];
      }
    }
  }

  /**
   * An id below the counter and absent from the store stays absent for good:
   * no later call stores it again, and every later `get_event`,
   * `update_event` or `delete_event` on it answers `NotFound`.
   */
  lemma {:induction false} RetiredIdStaysAbsent(s: Store, calls: seq<Call>, id: Uint64)
    requires Inv(s) && id < s.counter && id !in s.events
    requires s.counter + Adds(calls) <= MAX_UINT64
    ensures id !in Run(s, calls).store.events
    ensures forall i :: 0 <= i < |calls| && !calls[i].Add? && calls[i].id == id ==>
      Run(s, calls).result[i] == Answered(Err(NotFound(id)))
    decreases |calls|
  {
    if calls != [] {
      var first := Apply(s, calls[0]);
      var rest := Run(first.store, calls[1..]);
      RetiredIdStaysAbsent(first.store, calls[1..], id);
      assert Run(s, calls).result == [first.result] + rest.result;
      forall i | 0 <= i < |calls| && !calls[i].Add? && calls[i].id == id
        ensures Run(s, calls).result[i] == Answered(Err(NotFound(id)))
      {
        if i > 0 {
          assert calls[1..][i - 1] == calls[i];
        }
      }
    }
  }

  /**
   * After a successful delete the id is gone: reading it and deleting it
   * again both answer `NotFound`, and (by `RetiredIdStaysAbsent`) so does
   * every later call on it. A corollary of the contracts of `DeleteEvent`
   * and `GetEvent`, stated as the delete-then-read scenario.
   */
  lemma DeleteIsFinal(s: Store, id: Uint64)
    requires Inv(s) && id in s.events
    ensures DeleteEvent(s, id).result == Ok(s.events[id])
    ensures var t := DeleteEvent(s, id).store;
      && Inv(t) && id < t.counter && id !in t.events
      && GetEvent(t, id) == Err(NotFound(id))
      && DeleteEvent(t, id).result == Err(NotFound(id))
  {
  }

  /**
   * Read after write: a following `get_event` returns exactly the event
   * `add_event` returned. A corollary of the contract of `AddEvent`, stated
   * as the create-then-read scenario.
   */
  lemma ReadAfterAdd(s: Store, p: EventPayload, now: Uint64)
    requires s.counter < MAX_UINT64
    ensures var a := AddEvent(s, p, now);
      GetEvent(a.store, a.result.value.id) == Ok(a.result.value)
  {
  }

  /**
   * Update after create: the id and creation time are those of the created
   * event, the payload is the new one, and with a clock that does not run
   * backwards the update time is not before the creation time.
   */
  lemma UpdateAfterAdd(s: Store, p: EventPayload, created: Uint64, p2: EventPayload, now: Uint64)
    requires s.counter < MAX_UINT64
    requires created <= now
    ensures var a := AddEvent(s, p, created).result.value;
      var u := UpdateEvent(AddEvent(s, p, created).store, a.id, p2, now).result;
      && u.Ok?
      && u.value.id == a.id
      && u.value.createdAt == a.createdAt
      && u.value.updatedAt.Some? && u.value.updatedAt.value >= a.createdAt
      && Carries(u.value, p2)
  {
  }

  // ---------------------------------------------------------------------
  // Timestamps

  /**
   * Every stored timestamp is at most `t`, and an updated event was not
   * updated before it was created.
   */
  predicate StampedBy(s: Store, t: Uint64)
  {
    forall k :: k in s.events ==>
      && s.events[k].createdAt <= t
      && (s.events[k].updatedAt.Some? ==>
            s.events[k].createdAt <= s.events[k].updatedAt.value <= t)
  }

  /** The clock reading a call stamps into the store, if it stamps one; `t` otherwise. */
  function NextReading(c: Call, t: Uint64): Uint64
  {
    match c
    case Add(_, now) => now
    case Update(_, _, now) => now
    case _ => t
  }

  /** The readings the calls see never fall below `t` and never run backwards. */
  predicate ClockMonotone(calls: seq<Call>, t: Uint64)
    decreases |calls|
  {
    calls == [] ||
    (t <= NextReading(calls[0], t) && ClockMonotone(calls[1..], NextReading(calls[0], t)))
  }

  /** The last reading the calls see, or `t` when none of them reads the clock. */
  function LastReading(calls: seq<Call>, t: Uint64): Uint64
    decreases |calls|
  {
    if calls == [] then t else LastReading(calls[1..], NextReading(calls[0], t))
  }

  /** One call stamps only the reading it sees, so it keeps the stamps ordered. */
  lemma ApplyKeepsStamps(s: Store, c: Call, t: Uint64)
    requires c.Add? ==> s.counter < MAX_UINT64
    requires StampedBy(s, t) && t <= NextReading(c, t)
    ensures StampedBy(Apply(s, c).store, NextReading(c, t))
  {
  }

  /**
   * With a clock that never runs backwards, every event stored after any
   * sequence of calls has `createdAt <= updatedAt` and no stamp later than
   * the last reading: `created_at` is written once and `updated_at` only
   * ever receives the current reading.
   */
  lemma {:induction false} RunKeepsStamps(s: Store, calls: seq<Call>, t: Uint64)
    requires s.counter + Adds(calls) <= MAX_UINT64
    requires StampedBy(s, t) && ClockMonotone(calls, t)
    ensures StampedBy(Run(s, calls).store, LastReading(calls, t))
    ensures forall k :: k in Run(s, calls).store.events && Run(s, calls).store.events[k].updatedAt.Some? ==>
      Run(s, calls).store.events[k].createdAt <= Run(s, calls).store.events[k].updatedAt.value
    decreases |calls|
  {
    if calls != [] {
      var t' := NextReading(calls[0], t);
      ApplyKeepsStamps(s, calls[0], t);
      RunKeepsStamps(Apply(s, calls[0]).store, calls[1..], t');
    }
  }

  /**
   * With a reading not before the previous ones, an update never moves an
   * event's `updatedAt` back.
   */
  lemma UpdateStampNotBackwards(s: Store, id: Uint64, p: EventPayload, now: Uint64, t: Uint64)
    requires StampedBy(s, t) && t <= now && id in s.events
    ensures var u := UpdateEvent(s, id, p, now).result.value;
      && u.createdAt <= u.updatedAt.value
      && (s.events[id].updatedAt.Some? ==> s.events[id].updatedAt.value <= u.updatedAt.value)
  {
  }

  /** On the fresh store every id is unknown, and the first id minted is 0. */
  lemma FreshStore(id: Uint64, p: EventPayload, now: Uint64)
    ensures Inv(Fresh) && StampedBy(Fresh, 0)
    ensures GetEvent(Fresh, id) == Err(NotFound(id))
    ensures AddEvent(Fresh, p, now).result.value.id == 0
  {
  }
}
