/** The locking invariant the swap handlers keep: every PENDING request holds
    two distinct SWAP_PENDING slots, still owned by its requester and its
    receiver, and no slot is held by two PENDING requests. The slot handlers
    do not keep it; two counterexamples below show how they break it. */
module NegotiationInvariant {
  import opened Wrappers
  import opened Slots
  import opened SwapRequests
  import opened Store
  import opened SlotStore
  import opened Negotiation

  /** Request `q` holds its two slots. */
  predicate Holds(st: Store, q: SwapRequest)
  {
    && q.mySlotId != q.theirSlotId
    && q.mySlotId in st.slots && q.theirSlotId in st.slots
    && st.slots[q.mySlotId].status == SwapPending
    && st.slots[q.theirSlotId].status == SwapPending
    && st.slots[q.mySlotId].owner == q.requesterId
    && st.slots[q.theirSlotId].owner == q.receiverId
    && q.requesterId != q.receiverId
  }

  /** Slot `s` is one of the two slots request `q` names. */
  predicate Names(q: SwapRequest, s: SlotId)
  {
    s == q.mySlotId || s == q.theirSlotId
  }

  /** Two requests name no slot in common. */
  predicate Apart(q: SwapRequest, q': SwapRequest)
  {
    !Names(q', q.mySlotId) && !Names(q', q.theirSlotId)
  }

  predicate PendingHold(st: Store)
  {
    forall k :: k in st.requests && st.requests[k].status == Pending ==> Holds(st, st.requests[k])
  }

  predicate PendingDisjoint(st: Store)
  {
    forall a, b ::
      (a in st.requests && b in st.requests && a != b &&
       st.requests[a].status == Pending && st.requests[b].status == Pending) ==>
      Apart(st.requests[a], st.requests[b])
  }

  predicate Valid(st: Store)
  {
    PendingHold(st) && PendingDisjoint(st)
  }

  /** A successful create keeps the invariant: the two slots it locks were
      SWAPPABLE, so no PENDING request held them. */
  lemma CreatePreservesValid(st: Store, caller: UserId, my: Option<SlotId>, their: Option<SlotId>,
                             freshId: RequestId, now: int)
    requires Valid(st)
    requires freshId !in st.requests
    ensures Valid(CreateSwapRequest(st, caller, my, their, freshId, now).store)
  {
    var r := CreateSwapRequest(st, caller, my, their, freshId, now);
    if r.response.Ok? {
      var st' := r.store;
      var m, t := my.value, their.value;
      forall k | k in st.requests && st.requests[k].status == Pending
        ensures !Names(st.requests[k], m) && !Names(st.requests[k], t)
      {
        assert Holds(st, st.requests[k]);
      }
      forall k | k in st'.requests && st'.requests[k].status == Pending
        ensures Holds(st', st'.requests[k])
      {
        if k != freshId {
          assert Holds(st, st.requests[k]);
        }
      }
    }
  }

  /** Answering a request keeps the invariant: the two slots it releases
      belong to no other PENDING request. */
  lemma RespondPreservesValid(st: Store, caller: UserId, id: RequestId, accepted: bool)
    requires Valid(st)
    ensures Valid(RespondToSwap(st, caller, id, accepted).store)
  {
    var r := RespondToSwap(st, caller, id, accepted);
    if r.response.Ok? {
      var st' := r.store;
      var q := st.requests[id];
      forall k | k in st'.requests && st'.requests[k].status == Pending
        ensures Holds(st', st'.requests[k])
      {
        assert k != id;
        assert Holds(st, st.requests[k]);
        assert !Names(st.requests[k], q.mySlotId) && !Names(st.requests[k], q.theirSlotId);
      }
    }
  }

  /** Under the invariant, a slot held by a PENDING request cannot be named
      by a second request, on either side: the second create fails and
      changes nothing. */
  lemma HeldSlotRefusesSecondRequest(st: Store, held: RequestId, caller: UserId,
                                     my: Option<SlotId>, their: Option<SlotId>, freshId: RequestId, now: int)
    requires Valid(st)
    requires freshId !in st.requests
    requires held in st.requests && st.requests[held].status == Pending
    requires (my.Some? && Names(st.requests[held], my.value)) ||
             (their.Some? && Names(st.requests[held], their.value))
    ensures CreateSwapRequest(st, caller, my, their, freshId, now).response.Fail?
    ensures CreateSwapRequest(st, caller, my, their, freshId, now).store == st
  {
    assert Holds(st, st.requests[held]);
  }

  /** Two requests for the same wanted slot, one after the other, in any
      store: the first succeeds and the second fails, because the first has
      taken the wanted slot off the market. */
  lemma SecondRequestForSameSlotFails(st: Store, a: UserId, b: UserId, myA: SlotId, myB: SlotId,
                                      their: SlotId, idA: RequestId, idB: RequestId, now: int)
    requires idA !in st.requests && idB !in st.requests && idA != idB
    requires CanRequest(st, a, myA, their)
    ensures
      var first := CreateSwapRequest(st, a, Some(myA), Some(their), idA, now);
      && first.response.Ok?
      && CreateSwapRequest(first.store, b, Some(myB), Some(their), idB, now).response.Fail?
  {
  }

  /** A request is answered once: after any successful answer, a second
      answer by anyone is refused and changes nothing. */
  lemma RespondAnswersOnce(st: Store, caller: UserId, id: RequestId, accepted: bool,
                           again: UserId, acceptedAgain: bool)
    requires RespondToSwap(st, caller, id, accepted).response.Ok?
    ensures
      var st' := RespondToSwap(st, caller, id, accepted).store;
      var second := RespondToSwap(st', again, id, acceptedAgain);
      && second.response.Fail?
      && second.response.code in {400, 403}
      && (again == caller ==> second.response == Fail(400, "Already handled"))
      && (again != caller ==> second.response == Fail(403, "Forbidden"))
      && second.store == st'
      && second.outbox == []
  {
  }

  /** Under the invariant, accepting exchanges the two owners exactly: each
      slot goes to the other slot's previous owner, and both become BUSY. */
  lemma AcceptExchangesOwners(st: Store, caller: UserId, id: RequestId)
    requires Valid(st)
    requires RespondToSwap(st, caller, id, true).response.Ok?
    ensures
      var q := st.requests[id];
      var st' := RespondToSwap(st, caller, id, true).store;
      && st'.slots[q.mySlotId].owner == st.slots[q.theirSlotId].owner
      && st'.slots[q.theirSlotId].owner == st.slots[q.mySlotId].owner
      && st'.slots[q.mySlotId].status == Busy
      && st'.slots[q.theirSlotId].status == Busy
      && st'.requests[id].status == Accepted
  {
    assert Holds(st, st.requests[id]);
  }

  /** Under the invariant, rejecting puts both slots back on the market with
      their owners unchanged: each is now visible to everyone but its owner. */
  lemma RejectReturnsSlotsToMarket(st: Store, caller: UserId, id: RequestId, viewer: UserId)
    requires Valid(st)
    requires RespondToSwap(st, caller, id, false).response.Ok?
    ensures
      var q := st.requests[id];
      var st' := RespondToSwap(st, caller, id, false).store;
      && st'.slots[q.mySlotId].owner == q.requesterId
      && st'.slots[q.theirSlotId].owner == q.receiverId
      && (viewer != q.requesterId ==> OnMarket(st'.slots[q.mySlotId], viewer))
      && (viewer != q.receiverId ==> OnMarket(st'.slots[q.theirSlotId], viewer))
      && st'.requests[id].status == Rejected
  {
    assert Holds(st, st.requests[id]);
  }

  /** A successful create takes both slots off the market for every viewer. */
  lemma CreateWithdrawsFromMarket(st: Store, caller: UserId, my: SlotId, their: SlotId,
                                  freshId: RequestId, now: int, viewer: UserId)
    requires freshId !in st.requests
    requires CanRequest(st, caller, my, their)
    ensures
      var st' := CreateSwapRequest(st, caller, Some(my), Some(their), freshId, now).store;
      && !OnMarket(st'.slots[my], viewer)
      && !OnMarket(st'.slots[their], viewer)
  {
  }

  /** The swap handlers as a sequence of calls. */
  datatype SwapCall =
    | Create(caller: UserId, mySlotId: Option<SlotId>, theirSlotId: Option<SlotId>, now: int)
    | Respond(caller: UserId, id: RequestId, accepted: bool)

  /** An id no request uses: one above the largest in use. The store
      allocates ids itself; any unused id would do. */
  ghost function FreshRequestId(requests: map<RequestId, SwapRequest>): (k: RequestId)
    ensures k !in requests
  {
    1 + Largest(requests.Keys)
  }

  /** The largest member of a set of naturals, 0 for the empty set. */
  ghost function Largest(ids: set<nat>): (m: nat)
    ensures forall x :: x in ids ==> x <= m
    decreases ids
  {
    if ids == {} then 0
    else
      var x :| x in ids;
      var rest := Largest(ids - {x});
      assert forall y :: y in ids ==> y == x || y in ids - {x};
      if x > rest then x else rest
  }

  /** One swap handler call on the store. */
  ghost function Apply(st: Store, call: SwapCall): Store
  {
    match call
    case Create(caller, my, their, now) =>
      CreateSwapRequest(st, caller, my, their, FreshRequestId(st.requests), now).store
    case Respond(caller, id, accepted) =>
      RespondToSwap(st, caller, id, accepted).store
  }

  /** A sequence of swap handler calls, in order. */
  ghost function Run(st: Store, calls: seq<SwapCall>): Store
    decreases |calls|
  {
    if |calls| == 0 then st else Run(Apply(st, calls[0]), calls[1..])
  }

  /** The swap handlers alone keep the invariant over any sequence of calls. */
  lemma {:induction false} RunPreservesValid(st: Store, calls: seq<SwapCall>)
    requires Valid(st)
    ensures Valid(Run(st, calls))
    decreases |calls|
  {
    if |calls| > 0 {
      match calls[0] {
        case Create(caller, my, their, now) =>
          CreatePreservesValid(st, caller, my, their, FreshRequestId(st.requests), now);
        case Respond(caller, id, accepted) =>
          RespondPreservesValid(st, caller, id, accepted);
      }
      RunPreservesValid(Apply(st, calls[0]), calls[1..]);
    }
  }

  /** Alice owns slot 1 and Bob slot 2, both swappable; no requests yet. */
  function TwoOffers(): Store
  {
    Store(map[1 := Slot("alice", "standup", 10, 20, Swappable),
              2 := Slot("bob", "review", 30, 40, Swappable)],
          map[])
  }

  /** The store after Alice asks for Bob's slot with request 7. */
  function AliceAsksBob(): Store
  {
    Store(map[1 := Slot("alice", "standup", 10, 20, SwapPending),
              2 := Slot("bob", "review", 30, 40, SwapPending)],
          map[7 := SwapRequest("alice", "bob", 1, 2, Pending, 5)])
  }

  /** Alice asks, Bob accepts: the request is ACCEPTED, slot 1 is Bob's,
      slot 2 is Alice's, both BUSY. */
  lemma ScenarioAccept()
    ensures
      var asked := CreateSwapRequest(TwoOffers(), "alice", Some(1), Some(2), 7, 5);
      var answered := RespondToSwap(asked.store, "bob", 7, true);
      && asked.store == AliceAsksBob()
      && asked.outbox == [ToUser("bob", SwapRequested(7))]
      && EventName(asked.outbox[0].message) == "swap:requested"
      && answered.outbox == [ToUser("alice", SwapAccepted(7)), ToUser("bob", SwapAccepted(7))]
      && EventName(answered.outbox[0].message) == "swap:accepted"
      && answered.store.requests[7].status == Accepted
      && answered.store.slots[1] == Slot("bob", "standup", 10, 20, Busy)
      && answered.store.slots[2] == Slot("alice", "review", 30, 40, Busy)
  {
  }

  /** Alice asks, Bob rejects: the request is REJECTED and both slots are
      swappable again with their old owners. */
  lemma ScenarioReject()
    ensures
      var answered := RespondToSwap(AliceAsksBob(), "bob", 7, false);
      && answered.store.requests[7].status == Rejected
      && answered.store.slots == TwoOffers().slots
      && answered.outbox == [ToUser("alice", SwapRejected(7))]
      && EventName(answered.outbox[0].message) == "swap:rejected"
  {
  }

  /** Naming one's own slot on both sides is refused as a self-swap. */
  lemma ScenarioSelfSwap()
    ensures CreateSwapRequest(TwoOffers(), "alice", Some(1), Some(1), 7, 5).response ==
      Fail(400, "Cannot swap with yourself")
  {
  }

  /** Counterexample: the owner can update a slot held by a PENDING request
      back to SWAPPABLE. The update succeeds and breaks the invariant. Carol
      then creates a swappable slot 3 and asks for slot 1: that request
      succeeds too, so slot 1 is promised to two PENDING requests at once. */
  lemma UpdateCanUnlockHeldSlot()
    ensures Valid(AliceAsksBob())
    ensures
      var r := UpdateEvent(AliceAsksBob(), "alice", 1, SlotPatch(None, None, None, Some(Swappable)));
      var carolSlot := CreateEvent(r.store, "carol", NewSlotFields(Some("retro"), Some(50), Some(60), Some(Swappable)), 3);
      var second := CreateSwapRequest(carolSlot.store, "carol", Some(3), Some(1), 8, 6);
      && r.response.Ok?
      && r.store.requests[7].status == Pending
      && OnMarket(r.store.slots[1], "carol")
      && !Valid(r.store)
      && carolSlot.response.Ok?
      && second.response.Ok?
      && second.store.requests[7] == SwapRequest("alice", "bob", 1, 2, Pending, 5)
      && second.store.requests[8] == SwapRequest("carol", "alice", 3, 1, Pending, 6)
      && !Valid(second.store)
  {
    var r := UpdateEvent(AliceAsksBob(), "alice", 1, SlotPatch(None, None, None, Some(Swappable)));
    assert !Holds(r.store, r.store.requests[7]);
    var carolSlot := CreateEvent(r.store, "carol", NewSlotFields(Some("retro"), Some(50), Some(60), Some(Swappable)), 3);
    var second := CreateSwapRequest(carolSlot.store, "carol", Some(3), Some(1), 8, 6);
    assert !Apart(second.store.requests[7], second.store.requests[8]);
  }

  /** Counterexample: the owner can delete a slot held by a PENDING request.
      After that, no answer to the request by anyone succeeds: the receiver
      gets 404, everyone else 403, and the store is unchanged, so the request
      stays PENDING and Bob's slot stays locked. */
  lemma DeleteCanOrphanPendingRequest(caller: UserId, accepted: bool)
    ensures Valid(AliceAsksBob())
    ensures
      var d := DeleteEvent(AliceAsksBob(), "alice", 1);
      var answer := RespondToSwap(d.store, caller, 7, accepted);
      && d.response.Ok?
      && !Valid(d.store)
      && (caller == "bob" ==> answer.response == Fail(404, "Events missing"))
      && (caller != "bob" ==> answer.response == Fail(403, "Forbidden"))
      && answer.store == d.store
      && answer.outbox == []
      && d.store.requests[7].status == Pending
      && d.store.slots[2].status == SwapPending
  {
    var d := DeleteEvent(AliceAsksBob(), "alice", 1);
    assert !Holds(d.store, d.store.requests[7]);
  }

  /** Deleting a slot that no PENDING request names keeps the invariant:
      only a held slot can be orphaned. */
  lemma DeleteOfUnheldSlotPreservesValid(st: Store, caller: UserId, id: SlotId)
    requires Valid(st)
    requires forall k :: k in st.requests && st.requests[k].status == Pending ==> !Names(st.requests[k], id)
    ensures Valid(DeleteEvent(st, caller, id).store)
  {
    var st' := DeleteEvent(st, caller, id).store;
    forall k | k in st'.requests && st'.requests[k].status == Pending
      ensures Holds(st', st'.requests[k])
    {
      assert Holds(st, st.requests[k]);
    }
  }

  /** Under the invariant, the receiver's answer to a PENDING request always
      succeeds: both slots still exist, so the 404 for missing slots cannot
      happen. */
  lemma ReceiverAnswerSucceeds(st: Store, id: RequestId, accepted: bool)
    requires Valid(st)
    requires id in st.requests && st.requests[id].status == Pending
    ensures RespondToSwap(st, st.requests[id].receiverId, id, accepted).response.Ok?
  {
    assert Holds(st, st.requests[id]);
  }
}
