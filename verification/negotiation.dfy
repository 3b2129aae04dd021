/** The negotiation engine: creating a swap request locks both slots;
    the receiver's single answer either unlocks them or exchanges their
    owners. Also the two request listings. */
module Negotiation {
  import opened Wrappers
  import opened Slots
  import opened SwapRequests
  import opened Store
  import opened Sorting

  /** What a successful create checks: the offered slot is the caller's, the
      wanted slot exists and is someone else's, and both are swappable. */
  predicate CanRequest(st: Store, caller: UserId, my: SlotId, their: SlotId)
  {
    && OwnedBy(st.slots, my, caller)
    && their in st.slots
    && st.slots[their].owner != caller
    && st.slots[my].status == Swappable
    && st.slots[their].status == Swappable
  }

  /** Proposes exchanging the caller's slot `mySlotId` for `theirSlotId`.
      The guards are tried in order; on success one PENDING request is stored,
      both slots are locked, and the wanted slot's owner is told. */
  function CreateSwapRequest(st: Store, caller: UserId, mySlotId: Option<SlotId>, theirSlotId: Option<SlotId>,
                             freshId: RequestId, now: int): (r: Step<SwapRequest>)
    requires freshId !in st.requests
    ensures r.response.Fail? ==> r.store == st && r.outbox == []
    ensures mySlotId.None? || theirSlotId.None? ==> r.response == Fail(400, "Missing slot ids")
    ensures mySlotId.Some? && theirSlotId.Some? ==>
      var my := mySlotId.value;
      var their := theirSlotId.value;
      && (!(OwnedBy(st.slots, my, caller) && their in st.slots) ==>
            r.response == Fail(404, "Event not found"))
      && (OwnedBy(st.slots, my, caller) && their in st.slots && st.slots[their].owner == caller ==>
            r.response == Fail(400, "Cannot swap with yourself"))
      && (OwnedBy(st.slots, my, caller) && their in st.slots && st.slots[their].owner != caller &&
          (st.slots[my].status != Swappable || st.slots[their].status != Swappable) ==>
            r.response == Fail(400, "Events must be swappable"))
    ensures r.response.Ok? <==>
      mySlotId.Some? && theirSlotId.Some? && CanRequest(st, caller, mySlotId.value, theirSlotId.value)
    ensures r.response.Ok? ==>
      var my := mySlotId.value;
      var their := theirSlotId.value;
      var receiver := st.slots[their].owner;
      && r.response.code == 201
      && r.response.value == SwapRequest(caller, receiver, my, their, Pending, now)
      && r.store.requests.Keys == st.requests.Keys + {freshId}
      && r.store.requests[freshId] == r.response.value
      && (forall k :: k in st.requests ==> r.store.requests[k] == st.requests[k])
      && r.store.slots.Keys == st.slots.Keys
      && r.store.slots[my] == st.slots[my].(status := SwapPending)
      && r.store.slots[their] == st.slots[their].(status := SwapPending)
      && (forall k :: k in st.slots && k != my && k != their ==> r.store.slots[k] == st.slots[k])
      && r.outbox == [ToUser(receiver, SwapRequested(freshId))]
  {
    if mySlotId.None? || theirSlotId.None? then Refuse(st, 400, "Missing slot ids")
    else
      var my := mySlotId.value;
      var their := theirSlotId.value;
      if !OwnedBy(st.slots, my, caller) || their !in st.slots then Refuse(st, 404, "Event not found")
      else
        var mine := st.slots[my];
        var theirs := st.slots[their];
        if theirs.owner == caller then Refuse(st, 400, "Cannot swap with yourself")
        else if mine.status != Swappable || theirs.status != Swappable then
          Refuse(st, 400, "Events must be swappable")
        else
          var swap := SwapRequest(caller, theirs.owner, my, their, Pending, now);
          var slots := st.slots[my := mine.(status := SwapPending)][their := theirs.(status := SwapPending)];
          Step(Ok(201, swap), Store(slots, st.requests[freshId := swap]),
               [ToUser(theirs.owner, SwapRequested(freshId))])
  }

  /** Naming the same slot on both sides never creates a request: the slot
      is either not the caller's (404) or the caller's own wanted slot (400). */
  lemma SameSlotOnBothSidesFails(st: Store, caller: UserId, s: SlotId, freshId: RequestId, now: int)
    requires freshId !in st.requests
    ensures
      var r := CreateSwapRequest(st, caller, Some(s), Some(s), freshId, now);
      && (OwnedBy(st.slots, s, caller) ==> r.response == Fail(400, "Cannot swap with yourself"))
      && (!OwnedBy(st.slots, s, caller) ==> r.response == Fail(404, "Event not found"))
      && r.store == st
  {
  }

  /** The record a successful create stores is the one the schema builds from
      the same fields with the status "PENDING", stamped with the same time. */
  lemma CreatedRecordMatchesSchema(st: Store, caller: UserId, my: SlotId, their: SlotId,
                                   freshId: RequestId, now: int)
    requires freshId !in st.requests
    requires CanRequest(st, caller, my, their)
    ensures
      var r := CreateSwapRequest(st, caller, Some(my), Some(their), freshId, now);
      var fields := RequestFields(Some(caller), Some(st.slots[their].owner), Some(my), Some(their), Some("PENDING"));
      Validate(fields, now) == Checked(r.response.value)
  {
  }

  /** The receiver answers a PENDING request once. Rejecting unlocks both
      slots; accepting gives the offered slot to the receiver and the wanted
      slot to the requester, both BUSY. */
  function RespondToSwap(st: Store, caller: UserId, id: RequestId, accepted: bool): (r: Step<SwapRequest>)
    ensures r.response.Fail? ==> r.store == st && r.outbox == []
    ensures id !in st.requests ==> r.response == Fail(404, "Swap not found")
    ensures id in st.requests && st.requests[id].receiverId != caller ==>
      r.response == Fail(403, "Forbidden")
    ensures id in st.requests && st.requests[id].receiverId == caller && st.requests[id].status != Pending ==>
      r.response == Fail(400, "Already handled")
    ensures id in st.requests && st.requests[id].receiverId == caller && st.requests[id].status == Pending &&
            (st.requests[id].mySlotId !in st.slots || st.requests[id].theirSlotId !in st.slots) ==>
      r.response == Fail(404, "Events missing")
    ensures r.response.Ok? <==>
      && id in st.requests
      && st.requests[id].receiverId == caller
      && st.requests[id].status == Pending
      && st.requests[id].mySlotId in st.slots
      && st.requests[id].theirSlotId in st.slots
    ensures r.response.Ok? ==>
      var q := st.requests[id];
      && r.response.code == 200
      && r.response.value == q.(status := if accepted then Accepted else Rejected)
      && r.store.requests.Keys == st.requests.Keys
      && r.store.requests[id] == r.response.value
      && (forall k :: k in st.requests && k != id ==> r.store.requests[k] == st.requests[k])
      && r.store.slots.Keys == st.slots.Keys
      && (forall k :: k in st.slots && k != q.mySlotId && k != q.theirSlotId ==>
            r.store.slots[k] == st.slots[k])
    ensures r.response.Ok? && !accepted ==>
      var q := st.requests[id];
      && r.store.slots[q.mySlotId] == st.slots[q.mySlotId].(status := Swappable)
      && r.store.slots[q.theirSlotId] == st.slots[q.theirSlotId].(status := Swappable)
      && r.outbox == [ToUser(q.requesterId, SwapRejected(id))]
    ensures r.response.Ok? && accepted ==>
      var q := st.requests[id];
      && (q.mySlotId != q.theirSlotId ==>
            r.store.slots[q.mySlotId] == st.slots[q.mySlotId].(owner := q.receiverId, status := Busy))
      && r.store.slots[q.theirSlotId] == st.slots[q.theirSlotId].(owner := q.requesterId, status := Busy)
      && r.outbox == [ToUser(q.requesterId, SwapAccepted(id)), ToUser(q.receiverId, SwapAccepted(id))]
  {
    if id !in st.requests then Refuse(st, 404, "Swap not found")
    else
      var swap := st.requests[id];
      if swap.receiverId != caller then Refuse(st, 403, "Forbidden")
      else if swap.status != Pending then Refuse(st, 400, "Already handled")
      else if swap.mySlotId !in st.slots || swap.theirSlotId !in st.slots then
        Refuse(st, 404, "Events missing")
      else
        var mine := st.slots[swap.mySlotId];
        var theirs := st.slots[swap.theirSlotId];
        if !accepted then
          var answered := swap.(status := Rejected);
          var slots := st.slots[swap.mySlotId := mine.(status := Swappable)]
                               [swap.theirSlotId := theirs.(status := Swappable)];
          Step(Ok(200, answered), Store(slots, st.requests[id := answered]),
               [ToUser(swap.requesterId, SwapRejected(id))])
        else
          var answered := swap.(status := Accepted);
          var slots := st.slots[swap.mySlotId := mine.(owner := swap.receiverId, status := Busy)]
                               [swap.theirSlotId := theirs.(owner := swap.requesterId, status := Busy)];
          Step(Ok(200, answered), Store(slots, st.requests[id := answered]),
               [ToUser(swap.requesterId, SwapAccepted(id)), ToUser(swap.receiverId, SwapAccepted(id))])
  }

  /** The sort key of the request listings: creation time, newest first. */
  function NewestFirst(q: SwapRequest): int
  {
    -q.createdAt
  }

  /** The requests addressed to the caller and the requests the caller made,
      each list holding every such request once, newest first. */
  method ListRequests(st: Store, caller: UserId)
    returns (incoming: seq<(RequestId, SwapRequest)>, outgoing: seq<(RequestId, SwapRequest)>)
    ensures forall i :: 0 <= i < |incoming| ==>
      incoming[i].0 in st.requests && st.requests[incoming[i].0] == incoming[i].1 &&
      incoming[i].1.receiverId == caller
    ensures forall k :: k in st.requests && st.requests[k].receiverId == caller ==>
      (k, st.requests[k]) in incoming
    ensures forall i, j :: 0 <= i < j < |incoming| ==> incoming[i].0 != incoming[j].0
    ensures forall i, j :: 0 <= i < j < |incoming| ==> incoming[i].1.createdAt >= incoming[j].1.createdAt
    ensures forall i :: 0 <= i < |outgoing| ==>
      outgoing[i].0 in st.requests && st.requests[outgoing[i].0] == outgoing[i].1 &&
      outgoing[i].1.requesterId == caller
    ensures forall k :: k in st.requests && st.requests[k].requesterId == caller ==>
      (k, st.requests[k]) in outgoing
    ensures forall i, j :: 0 <= i < j < |outgoing| ==> outgoing[i].0 != outgoing[j].0
    ensures forall i, j :: 0 <= i < j < |outgoing| ==> outgoing[i].1.createdAt >= outgoing[j].1.createdAt
  {
    incoming := Query(st.requests, (q: SwapRequest) => q.receiverId == caller, NewestFirst);
    outgoing := Query(st.requests, (q: SwapRequest) => q.requesterId == caller, NewestFirst);
  }
}
