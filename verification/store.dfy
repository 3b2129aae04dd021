/** The state the handlers share, what they answer, and what they announce.
    Every handler is one atomic step from a `Store` to a `Step`. */
module Store {
  import opened Slots
  import opened SwapRequests

  /** The two record collections. */
  datatype Store = Store(slots: map<SlotId, Slot>, requests: map<RequestId, SwapRequest>)

  /** Real-time messages, one constructor per event name, with their payloads. */
  datatype Message =
    | SwapRequested(swapId: RequestId)
    | SwapAccepted(swapId: RequestId)
    | SwapRejected(swapId: RequestId)
    | EventCreated(eventId: SlotId)
    | EventUpdated(eventIds: seq<SlotId>, status: SlotStatus)
    | EventDeleted(eventId: SlotId, userId: UserId)

  /** The event name a message is emitted under. */
  function EventName(m: Message): string
  {
    match m
    case SwapRequested(_) => "swap:requested"
    case SwapAccepted(_) => "swap:accepted"
    case SwapRejected(_) => "swap:rejected"
    case EventCreated(_) => "event:created"
    case EventUpdated(_, _) => "event:updated"
    case EventDeleted(_, _) => "event:deleted"
  }

  /** An entry of a handler's outbox: a message for every live connection of
      one user, or for every connected client. */
  datatype Notice = ToUser(user: UserId, message: Message) | Broadcast(message: Message)

  /** The HTTP answer: a success status code with the body's record, or an
      error status code with its message. */
  datatype Response<+T> = Ok(code: nat, value: T) | Fail(code: nat, message: string)

  /** The result of one handler call. */
  datatype Step<+T> = Step(response: Response<T>, store: Store, outbox: seq<Notice>)

  /** The failure every handler returns: nothing stored, nothing announced. */
  function Refuse<T>(st: Store, code: nat, message: string): Step<T>
  {
    Step(Fail(code, message), st, [])
  }
}
