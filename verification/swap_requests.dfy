/** The SwapRequest record and its schema: four required ids, a status drawn
    from a three-value enum that defaults to PENDING, and a creation stamp. */
module SwapRequests {
  import opened Wrappers
  import opened Slots

  type RequestId = nat

  datatype RequestStatus = Pending | Accepted | Rejected

  /** A stored swap request. `mySlotId` is the slot the requester offers,
      `theirSlotId` the slot the requester wants. */
  datatype SwapRequest = SwapRequest(
    requesterId: UserId,
    receiverId: UserId,
    mySlotId: SlotId,
    theirSlotId: SlotId,
    status: RequestStatus,
    createdAt: int)

  /** The enum's wire values. */
  function RequestStatusName(s: RequestStatus): string
  {
    match s
    case Pending => "PENDING"
    case Accepted => "ACCEPTED"
    case Rejected => "REJECTED"
  }

  /** Reads a wire value back; anything outside the enum is rejected. */
  function ParseRequestStatus(t: string): (r: Option<RequestStatus>)
    ensures r.Some? ==> RequestStatusName(r.value) == t
  {
    if t == "PENDING" then Some(Pending)
    else if t == "ACCEPTED" then Some(Accepted)
    else if t == "REJECTED" then Some(Rejected)
    else None
  }

  /** Every status has a wire name and reads back as itself, so the enum has
      exactly the three values. */
  lemma RequestStatusRoundTrip(s: RequestStatus)
    ensures ParseRequestStatus(RequestStatusName(s)) == Some(s)
  {
  }

  /** The fields a caller hands to the schema; absent fields are `None`. */
  datatype RequestFields = RequestFields(
    requesterId: Option<UserId>,
    receiverId: Option<UserId>,
    mySlotId: Option<SlotId>,
    theirSlotId: Option<SlotId>,
    status: Option<string>)

  datatype SchemaError = MissingField(name: string) | BadEnumValue(value: string)

  datatype Validated = Checked(record: SwapRequest) | Refused(error: SchemaError)

  /** Schema validation on create: the four ids are required, the status must
      be an enum value and defaults to PENDING, and the record is stamped with
      the creation time `now`. */
  function Validate(f: RequestFields, now: int): (r: Validated)
    ensures r.Checked? <==>
      && f.requesterId.Some? && f.receiverId.Some?
      && f.mySlotId.Some? && f.theirSlotId.Some?
      && (f.status.None? || ParseRequestStatus(f.status.value).Some?)
    ensures r.Checked? ==>
      && r.record.requesterId == f.requesterId.value
      && r.record.receiverId == f.receiverId.value
      && r.record.mySlotId == f.mySlotId.value
      && r.record.theirSlotId == f.theirSlotId.value
      && r.record.createdAt == now
      && (f.status.None? ==> r.record.status == Pending)
      && (f.status.Some? ==> RequestStatusName(r.record.status) == f.status.value)
  {
    if f.requesterId.None? then Refused(MissingField("requesterId"))
    else if f.receiverId.None? then Refused(MissingField("receiverId"))
    else if f.mySlotId.None? then Refused(MissingField("mySlotId"))
    else if f.theirSlotId.None? then Refused(MissingField("theirSlotId"))
    else
      var status :=
        if f.status.None? then Some(Pending) else ParseRequestStatus(f.status.value);
      if status.None? then Refused(BadEnumValue(f.status.value))
      else
        Checked(SwapRequest(f.requesterId.value, f.receiverId.value,
                          f.mySlotId.value, f.theirSlotId.value,
                          status.value, now))
  }
}
