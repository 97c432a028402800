# Event tracker backend: a verified model of the event store

The backend is an Internet Computer canister that keeps "Event" records. It has two
pieces of persisted state: a `u64` id counter cell (`ID_COUNTER`) and a map from ids to
events (`STORAGE`). Four entry points act on them:

- `add_event` mints an id from the counter and stores a new event;
- `get_event` looks an event up;
- `update_event` replaces an event's payload and stamps `updated_at`;
- `delete_event` removes an event and returns it.

The model has three modules:

- `Events` (events.dfy) holds the records: `Event`, `EventPayload` and the `NotFound`
  error. It also holds the two record builders, `NewEvent` and `Revised`.
- `EventStore` (store.dfy) models the state `(counter, events)` as a value, with one
  function per entry point. It defines the invariant `Inv`: every key is below the counter
  and every event is stored under its own id. It models any sequence of calls as `Run`,
  and holds the lemmas about such sequences.
- `Canister` (canister.dfy) is the state as it really behaves. The class `EventCanister`
  has the two fields `counter` and `storage`, which its methods update in place. The
  four entry points `GetEvent`, `AddEvent`, `UpdateEvent` and `DeleteEvent` are each
  proved to produce exactly the state and answer given by the matching `EventStore`
  function; the three that change state also keep `Inv`. The helpers `SetCounter`
  (the counter cell's `set`), `DoInsert` and `FindEvent` have contracts of their own.

`add_event` takes as the id the value the counter cell's `set` returns, which is the
value it replaces (lib.rs:78-83), so the first event gets id 0. `update_event`
re-inserts the revised event under `event.id`, not under its `id` argument. So its claim
that only that key changes depends on `Inv`.

## Model

| member | source | states |
|---|---|---|
| `Events.NewEvent` | src/icp_rust_boilerplate_backend/src/lib.rs:84-93 | the created event has the given id, exactly the payload's five fields, `createdAt` = now and no `updatedAt` |
| `Events.Revised` | src/icp_rust_boilerplate_backend/src/lib.rs:102-108 | the revised event keeps id and `createdAt`, carries the new payload and has `updatedAt = Some(now)`; it equals the old event exactly when the old one already had that payload and stamp |
| `EventStore.GetEvent` | src/icp_rust_boilerplate_backend/src/lib.rs:66-74 | answers `Ok` exactly when the id is stored, with the stored event (whose id is the key under `Inv`), else `NotFound(id)` |
| `EventStore.AddEvent` | src/icp_rust_boilerplate_backend/src/lib.rs:76-97 | always answers `Some`; the id is the counter before the call and the counter goes one up; payload copied, created now, never updated; a following get returns that event; no other key changes; under `Inv` the id was not a stored key (no overwrite) and `Inv` holds after |
| `EventStore.UpdateEvent` | src/icp_rust_boilerplate_backend/src/lib.rs:99-124 | counter unchanged; `Ok` exactly when the id is present; on `Ok` the id and `createdAt` are kept, the payload is replaced and `updatedAt = Some(now)`, and under `Inv` only that key changes; on an absent id `NotFound(id)` with the state unchanged; keeps `Inv` |
| `EventStore.DeleteEvent` | src/icp_rust_boilerplate_backend/src/lib.rs:126-137 | counter unchanged; `Ok` exactly when the id is present, answering the stored event and removing only that key; else `NotFound(id)` with the state unchanged; afterwards a get on the id answers `NotFound`; keeps `Inv` |
| `EventStore.Apply` | src/icp_rust_boilerplate_backend/src/lib.rs:66-137 | one call of any entry point: only `add_event` moves the counter, by exactly one; every call keeps `Inv` |
| `EventStore.Run` | src/icp_rust_boilerplate_backend/src/lib.rs:78-83 | over any sequence of calls whose `add_event` calls fit below the `u64` maximum, one reply per call, and the final counter is the initial one plus the number of `add_event` calls |
| `EventStore.RunPreservesInv` | src/icp_rust_boilerplate_backend/src/lib.rs:76-137 | any sequence of calls from a state satisfying `Inv` ends in a state satisfying `Inv` |
| `EventStore.RunMintsIncreasingIds` | src/icp_rust_boilerplate_backend/src/lib.rs:78-83 | the ids returned by the `add_event` calls of any sequence are strictly increasing (hence pairwise distinct), one per `add_event`, between the initial and the final counter, and never a key that was already stored |
| `EventStore.RetiredIdStaysAbsent` | src/icp_rust_boilerplate_backend/src/lib.rs:99-137 | an id below the counter that is not stored is never stored again by any later calls, and every later get, update or delete of it answers `NotFound(id)`: a deleted id is never reissued |
| `EventStore.DeleteIsFinal` | src/icp_rust_boilerplate_backend/src/lib.rs:126-137 | a delete of a present id returns the stored event; afterwards the id is below the counter and absent, and both a get and a second delete answer `NotFound(id)` |
| `EventStore.ReadAfterAdd` | src/icp_rust_boilerplate_backend/src/lib.rs:145-147 | after `add_event` returns an event, `get_event` on its id returns exactly that event |
| `EventStore.UpdateAfterAdd` | src/icp_rust_boilerplate_backend/src/lib.rs:99-111 | updating a just-created event succeeds, keeps its id and creation time, carries the new payload, and with a clock that does not run backwards its update time is not before its creation time |
| `EventStore.ApplyKeepsStamps` | src/icp_rust_boilerplate_backend/src/lib.rs:84-108 | one call stamps only the clock reading it sees: if every stored stamp is at most `t` and the call's reading is not before `t`, every stamp afterwards is at most that reading and each updated event has `createdAt <= updatedAt` |
| `EventStore.RunKeepsStamps` | src/icp_rust_boilerplate_backend/src/lib.rs:84-108 | with clock readings that never run backwards, after any sequence of calls every stored event has `createdAt <= updatedAt` and no stamp later than the last reading |
| `EventStore.UpdateStampNotBackwards` | src/icp_rust_boilerplate_backend/src/lib.rs:99-111 | with a reading not before the stored stamps, an update's `updatedAt` is not before the event's `createdAt` nor before its previous `updatedAt` |
| `EventStore.FreshStore` | src/icp_rust_boilerplate_backend/src/lib.rs:46-54 | the initial state satisfies `Inv` and has no stamps, every get on it answers `NotFound`, and the first id minted is 0 |
| `Canister.EventCanister.constructor` | src/icp_rust_boilerplate_backend/src/lib.rs:46-54 | first boot: counter 0, empty map, `Inv` holds |
| `Canister.EventCanister.SetCounter` | src/icp_rust_boilerplate_backend/src/lib.rs:78-83 | the counter cell's `set` stores the new value and returns the previous one |
| `Canister.EventCanister.DoInsert` | src/icp_rust_boilerplate_backend/src/lib.rs:121-124 | the map afterwards files the event under its own id and is otherwise unchanged |
| `Canister.EventCanister.FindEvent` | src/icp_rust_boilerplate_backend/src/lib.rs:145-147 | `Some` exactly when the id is stored, with the stored event, whose id is the key under `Inv`; changes nothing |
| `Canister.EventCanister.GetEvent` | src/icp_rust_boilerplate_backend/src/lib.rs:66-74 | a query that changes nothing and answers as `EventStore.GetEvent` on the current state |
| `Canister.EventCanister.AddEvent` | src/icp_rust_boilerplate_backend/src/lib.rs:76-97 | the new counter, map and answer are exactly those of `EventStore.AddEvent` on the old state; keeps `Inv` |
| `Canister.EventCanister.UpdateEvent` | src/icp_rust_boilerplate_backend/src/lib.rs:99-119 | the new counter, map and answer are exactly those of `EventStore.UpdateEvent` on the old state; keeps `Inv` |
| `Canister.EventCanister.DeleteEvent` | src/icp_rust_boilerplate_backend/src/lib.rs:126-137 | the new counter, map and answer are exactly those of `EventStore.DeleteEvent` on the old state; keeps `Inv` |

`Canister.ExampleSession` walks one session through the class contracts: create "A"
(id 0) and "B" (id 1), update 0 to "A2", delete 1 (answering "B"), then get 1 and get
999999 (both answering `NotFound`).

## Left out

- The Candid encoding and decoding of `Storable` (lib.rs:25-33) belongs to a foreign
  serialisation library. Events are stored as values. The round trip and the
  panic of `Decode!(…).unwrap()` on malformed bytes (lib.rs:31) are not modelled.
- The `MAX_SIZE = 1024` bound (lib.rs:36-39) is only declared here. It is enforced inside
  the stable B-tree map, which is not part of this model. Field lengths are unbounded.
- The memory manager, virtual memories, the B-tree map and the cell internals
  (lib.rs:41-55) are modelled as a `map` field and a `Uint64` field. Persistence across
  canister upgrades is not modelled: the state simply lives in the object.
- `ic_cdk::api::time()` is an external clock. Each method takes the reading `now` as a
  parameter. The operations assume nothing about the clock. The timestamp lemmas
  `UpdateAfterAdd`, `ApplyKeepsStamps`, `RunKeepsStamps` and `UpdateStampNotBackwards`
  take as a hypothesis that readings never run backwards, which is what `time()`
  provides; for a clock that runs backwards they promise nothing.
- The `println!` log line, the query and update attributes, and `export_candid!` are
  transport and logging, so they are left out.
- The error messages are formatted strings in the source. `NotFound` carries the requested
  id instead.
- EventStore.AddEvent: requires `counter < MAX_UINT64`, so it does not model what happens
  when `current_value + 1` overflows. That is a trap in a build with overflow checks, or a
  wrap to 0 in one without. The panics of `expect`/`unwrap` are not modelled either.
- Canister.EventCanister.AddEvent: requires `counter < MAX_UINT64` for the same reason.
- The `thread_local!`/`RefCell` wrapping is left out. Each call runs to completion and
  alone, which `Run` models as a plain sequence of calls.
