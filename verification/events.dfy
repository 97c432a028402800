/**
 * The records of the event tracker backend: the stored `Event`, the
 * `EventPayload` a caller supplies, and the `NotFound` error.
 */
module Events {

  /** Rust's `u32` and `u64`, as ranges of the unbounded integers. */
  type Uint32 = x: int | 0 <= x < 0x1_0000_0000
  type Uint64 = x: int | 0 <= x < 0x1_0000_0000_0000_0000

  const MAX_UINT64: Uint64 := 0xFFFF_FFFF_FFFF_FFFF

  datatype Option<T> = None | Some(value: T)

  /** The five caller-chosen fields of an event. */
  datatype EventPayload = EventPayload(
    title: string,
    date: string,
    time: string,
    maxAttendant: Uint32,
    attachmentUrl: string)

  /** A stored event: its key, the payload fields and the two timestamps. */
  datatype Event = Event(
    id: Uint64,
    title: string,
    date: string,
    time: string,
    maxAttendant: Uint32,
    attachmentUrl: string,
    createdAt: Uint64,
    updatedAt: Option<Uint64>)

  /** The only error of the service; it names the id that was asked for. */
  datatype Error = NotFound(id: Uint64)

  datatype Result<T> = Ok(value: T) | Err(error: Error)

  /** `e` holds exactly the five payload fields of `p`. */
  predicate Carries(e: Event, p: EventPayload)
  {
    && e.title == p.title
    && e.date == p.date
    && e.time == p.time
    && e.maxAttendant == p.maxAttendant
    && e.attachmentUrl == p.attachmentUrl
  }

  /** The record `add_event` builds: fresh id, the payload, created now, never updated. */
  function NewEvent(id: Uint64, p: EventPayload, now: Uint64): (e: Event)
    ensures e.id == id && Carries(e, p)
    ensures e.createdAt == now && e.updatedAt == None
  {
    Event(id, p.title, p.date, p.time, p.maxAttendant, p.attachmentUrl, now, None)
  }

  /**
   * The record `update_event` writes back: the payload fields replaced and
   * `updatedAt` stamped, while the identity and creation time stay.
   */
  function Revised(e: Event, p: EventPayload, now: Uint64): (r: Event)
    ensures r.id == e.id && r.createdAt == e.createdAt
    ensures Carries(r, p) && r.updatedAt == Some(now)
    ensures Carries(e, p) && e.updatedAt == Some(now) <==> r == e
  {
    e.(title := p.title, date := p.date, time := p.time,
       maxAttendant := p.maxAttendant, attachmentUrl := p.attachmentUrl,
       updatedAt := Some(now))
  }
}
