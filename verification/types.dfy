/** Value types shared by the event queue, the subscriber registry and the
    dispatch worker of the event bus. */
module Types {

  /** An unsigned 8-bit field (`uint8_t` in the C structures). */
  newtype u8 = x: int | 0 <= x < 256

  datatype Option<T> = None | Some(value: T)

  /** The "no slot" link value used for `prev`, `next` and the list head. */
  const Nil: int := -1

  /** Event type: a (category, id) pair. On the subscriber side a 0 in
      either field is a wildcard; a published event may use neither. */
  datatype EventType = EventType(category: u8, id: u8)

  /** The input payload of an event. `direct` is the identity of a heap
      buffer whose ownership passes to the bus at publish time (`None` is
      the C NULL pointer); `dataSize` is its length in bytes. */
  datatype Input = Input(direct: Option<nat>, dataSize: nat)

  /** A queued event; `result` stands for the opaque result sink. */
  datatype Event = Event(etype: EventType, input: Input, result: nat)

  /** The identities of the heap buffers owned by a run of events, in order. */
  function Payloads(evs: seq<Event>): (ps: seq<nat>)
    ensures |ps| <= |evs|
  {
    if |evs| == 0 then []
    else
      (match evs[0].input.direct
       case Some(p) => [p]
       case None => []) + Payloads(evs[1..])
  }
}
