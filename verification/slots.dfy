/** The slot record (a calendar event) and the identifiers shared by the model.
    The Event schema file is not part of this model; the record's shape is the
    one the controllers read and write: owner, title, start, end and status. */
module Slots {

  /** User ids are compared as strings throughout the handlers. */
  type UserId = string

  /** Slot ids are allocated by the persistence layer; only equality matters. */
  type SlotId = nat

  /** The three availability states of a slot. */
  datatype SlotStatus = Busy | Swappable | SwapPending

  /** A slot. Times are plain integers: the model only orders them. */
  datatype Slot = Slot(
    owner: UserId,
    title: string,
    startTime: int,
    endTime: int,
    status: SlotStatus)

  /** Slot `id` exists and belongs to `user`: the filter `{ _id: id, userId: user }`. */
  predicate OwnedBy(slots: map<SlotId, Slot>, id: SlotId, user: UserId)
  {
    id in slots && slots[id].owner == user
  }
}
