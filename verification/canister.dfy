/**
 * The backend as it runs: the persisted counter cell and the event map are
 * fields that the four entry points read and update in place. Each entry
 * point (`GetEvent`, `AddEvent`, `UpdateEvent`, `DeleteEvent`) is proved to
 * do what the matching function of `EventStore` describes.
 */
module Canister {
  import opened Events
  import EventStore

  class EventCanister {
    /** `ID_COUNTER`: the next id to hand out. */
    var counter: Uint64
    /** `STORAGE`: the events, keyed by id. */
    var storage: map<Uint64, Event>

    /** The state as a value of the store model. */
    ghost function Model(): EventStore.Store
      reads this
    {
      EventStore.Store(counter, storage)
    }

    ghost predicate Valid()
      reads this
    {
      EventStore.Inv(Model())
    }

    /** First boot: the counter cell is initialised to 0 and the map is empty. */
    constructor ()
      ensures Valid()
      ensures Model() == EventStore.Fresh
    {
      counter := 0;
      storage := map[];
    }

    /** The counter cell's `set`: stores the new value and hands back the one it replaces. */
    method SetCounter(value: Uint64) returns (previous: Uint64)
      modifies this`counter
      ensures counter == value
      ensures previous == old(counter)
    {
      previous := counter;
      counter := value;
    }

    /** `do_insert`: files the event under its own id, overwriting whatever was there. */
    method DoInsert(event: Event)
      modifies this`storage
      ensures storage == old(storage)[event.id := event]
    {
      storage := storage[event.id := event];
    }

    /** `_get_event`: the stored event, if any. */
    method FindEvent(id: Uint64) returns (r: Option<Event>)
      ensures r.Some? <==> id in storage
      ensures r.Some? ==> r.value == storage[id] && (Valid() ==> r.value.id == id)
    {
      if id in storage {
        r := Some(storage[id]);
      } else {
        r := None;
      }
    }

    /** `get_event`: a query; the answer is the one the store model gives. */
    method GetEvent(id: Uint64) returns (r: Result<Event>)
      ensures r == EventStore.GetEvent(Model(), id)
    {
      var found := FindEvent(id);
      match found
      case Some(event) => r := Ok(event);
      case None => r := Err(NotFound(id));
    }

    /**
     * `add_event`: the id is what the counter cell's `set` returns, i.e. the
     * counter before the call. The counter must not be at the `u64` maximum,
     * where `current_value + 1` would overflow.
     */
    method AddEvent(payload: EventPayload, now: Uint64) returns (r: Option<Event>)
      requires Valid()
      requires counter < MAX_UINT64
      modifies this
      ensures Valid()
      ensures EventStore.Outcome(Model(), r) == EventStore.AddEvent(old(Model()), payload, now)
    {
      var current := counter;
      var id := SetCounter(current + 1);
      var event := NewEvent(id, payload, now);
      DoInsert(event);
      r := Some(event);
    }

    /** `update_event`: revises the stored event and re-inserts it under `event.id`. */
    method UpdateEvent(id: Uint64, payload: EventPayload, now: Uint64) returns (r: Result<Event>)
      requires Valid()
      modifies this
      ensures Valid()
      ensures EventStore.Outcome(Model(), r) == EventStore.UpdateEvent(old(Model()), id, payload, now)
    {
      var found := if id in storage then Some(storage[id]) else None;
      match found
      case Some(event) =>
        var revised := Revised(event, payload, now);
        DoInsert(revised);
        r := Ok(revised);
      case None =>
        r := Err(NotFound(id));
    }

    /** `delete_event`: removes the id from the map and answers what was there. */
    method DeleteEvent(id: Uint64) returns (r: Result<Event>)
      requires Valid()
      modifies this
      ensures Valid()
      ensures EventStore.Outcome(Model(), r) == EventStore.DeleteEvent(old(Model()), id)
    {
      if id in storage {
        var removed := storage[id];
        storage := storage - {id};
        r := Ok(removed);
      } else {
        r := Err(NotFound(id));
      }
    }
  }

  /**
   * A session on a fresh backend: create "A" and "B", update the first,
   * delete the second, then look the second up again.
   */
  method ExampleSession(p: EventPayload, t0: Uint64, t1: Uint64, t2: Uint64)
    requires p.title == "A"
  {
    var c := new EventCanister();
    var a := c.AddEvent(p, t0);
    assert a.value.id == 0;
    var b := c.AddEvent(p.(title := "B"), t1);
    assert b.value.id == 1;
    var u := c.UpdateEvent(0, p.(title := "A2"), t2);
    assert u == Ok(a.value.(title := "A2", updatedAt := Some(t2)));
    var d := c.DeleteEvent(1);
    assert d == Ok(b.value) && d.value.title == "B";
    var g := c.GetEvent(1);
    assert g == Err(NotFound(1));
    var n := c.GetEvent(999999);
    assert n == Err(NotFound(999999));
  }
}
