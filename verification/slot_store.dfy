/** The slot handlers: the owner's own listing, owner-scoped create, update
    and delete, and the marketplace of other users' swappable slots. */
module SlotStore {
  import opened Wrappers
  import opened Slots
  import opened Store
  import opened Sorting

  /** A create body. `None` stands for a field that is absent or falsy, so an
      empty title is `Some("")` and is refused like an absent one. */
  datatype NewSlotFields = NewSlotFields(
    title: Option<string>,
    startTime: Option<int>,
    endTime: Option<int>,
    status: Option<SlotStatus>)

  /** An update body. `None` stands for a key that is not in the body. */
  datatype SlotPatch = SlotPatch(
    title: Option<string>,
    startTime: Option<int>,
    endTime: Option<int>,
    status: Option<SlotStatus>)

  /** Every record other than slot `id` is as it was, requests included. */
  predicate OthersUnchanged(st: Store, st': Store, id: SlotId)
  {
    && st'.requests == st.requests
    && st'.slots.Keys - {id} == st.slots.Keys - {id}
    && (forall k :: k in st.slots && k != id ==> k in st'.slots && st'.slots[k] == st.slots[k])
  }

  /** A create body is complete when it has a non-empty title and both times. */
  predicate Complete(body: NewSlotFields)
  {
    body.title.Some? && body.title.value != "" && body.startTime.Some? && body.endTime.Some?
  }

  /** The sort key of the slot listings: start time, ascending. */
  function StartKey(s: Slot): int
  {
    s.startTime
  }

  /** A slot the marketplace shows to `viewer`: swappable and someone else's. */
  predicate OnMarket(s: Slot, viewer: UserId)
  {
    s.status == Swappable && s.owner != viewer
  }

  /** The caller's own slots, each once, earliest start first. */
  method ListMyEvents(st: Store, caller: UserId) returns (events: seq<(SlotId, Slot)>)
    ensures forall i :: 0 <= i < |events| ==>
      OwnedBy(st.slots, events[i].0, caller) && st.slots[events[i].0] == events[i].1
    ensures forall id :: OwnedBy(st.slots, id, caller) ==> (id, st.slots[id]) in events
    ensures forall i, j :: 0 <= i < j < |events| ==> events[i].0 != events[j].0
    ensures forall i, j :: 0 <= i < j < |events| ==> events[i].1.startTime <= events[j].1.startTime
  {
    events := Query(st.slots, (s: Slot) => s.owner == caller, StartKey);
  }

  /** The marketplace: every swappable slot of another user, each once,
      earliest start first. Slots locked in a negotiation are not shown. */
  method ListSwappableFromOthers(st: Store, caller: UserId) returns (events: seq<(SlotId, Slot)>)
    ensures forall i :: 0 <= i < |events| ==>
      events[i].0 in st.slots && st.slots[events[i].0] == events[i].1
    ensures forall i :: 0 <= i < |events| ==>
      events[i].1.status == Swappable && events[i].1.owner != caller
    ensures forall id :: id in st.slots && OnMarket(st.slots[id], caller) ==> (id, st.slots[id]) in events
    ensures forall i, j :: 0 <= i < j < |events| ==> events[i].0 != events[j].0
    ensures forall i, j :: 0 <= i < j < |events| ==> events[i].1.startTime <= events[j].1.startTime
  {
    events := Query(st.slots, (s: Slot) => OnMarket(s, caller), StartKey);
  }

  /** Creates a slot owned by the caller. The status defaults to BUSY; the
      marketplace is told only about a slot created swappable. */
  function CreateEvent(st: Store, caller: UserId, body: NewSlotFields, freshId: SlotId): (r: Step<Slot>)
    requires freshId !in st.slots
    ensures r.response.Ok? <==> Complete(body)
    ensures !Complete(body) ==>
      r.response == Fail(400, "Missing fields") && r.store == st && r.outbox == []
    ensures r.response.Ok? ==>
      var s := r.response.value;
      && r.response.code == 201
      && s.owner == caller
      && s.title == body.title.value
      && s.startTime == body.startTime.value
      && s.endTime == body.endTime.value
      && s.status == GetOr(body.status, Busy)
      && freshId in r.store.slots && r.store.slots[freshId] == s
      && OthersUnchanged(st, r.store, freshId)
      && (r.outbox != [] <==> s.status == Swappable)
      && (r.outbox != [] ==> r.outbox == [Broadcast(EventCreated(freshId))])
  {
    if !Complete(body) then Refuse(st, 400, "Missing fields")
    else
      var s := Slot(caller, body.title.value, body.startTime.value, body.endTime.value,
                    GetOr(body.status, Busy));
      var outbox := if s.status == Swappable then [Broadcast(EventCreated(freshId))] else [];
      Step(Ok(201, s), Store(st.slots[freshId := s], st.requests), outbox)
  }

  /** Overwrites the fields present in the body on one of the caller's own
      slots. Nothing guards a slot locked in a negotiation. The marketplace is
      told when the status changed or a status was supplied. */
  function UpdateEvent(st: Store, caller: UserId, id: SlotId, patch: SlotPatch): (r: Step<Slot>)
    ensures r.response.Ok? <==> OwnedBy(st.slots, id, caller)
    ensures !OwnedBy(st.slots, id, caller) ==>
      r.response == Fail(404, "Not found") && r.store == st && r.outbox == []
    ensures r.response.Ok? ==>
      var before := st.slots[id];
      var s := r.response.value;
      && r.response.code == 200
      && s.owner == before.owner
      && s.title == GetOr(patch.title, before.title)
      && s.startTime == GetOr(patch.startTime, before.startTime)
      && s.endTime == GetOr(patch.endTime, before.endTime)
      && s.status == GetOr(patch.status, before.status)
      && id in r.store.slots && r.store.slots[id] == s
      && OthersUnchanged(st, r.store, id)
    ensures r.response.Ok? ==> (r.outbox != [] <==> patch.status.Some?)
    ensures r.response.Ok? && r.outbox != [] ==>
      r.outbox == [Broadcast(EventUpdated([id], r.response.value.status))]
  {
    if !OwnedBy(st.slots, id, caller) then Refuse(st, 404, "Not found")
    else
      var before := st.slots[id];
      var s := before.(
        title := GetOr(patch.title, before.title),
        startTime := GetOr(patch.startTime, before.startTime),
        endTime := GetOr(patch.endTime, before.endTime),
        status := GetOr(patch.status, before.status));
      var outbox :=
        if before.status != s.status || patch.status.Some?
        then [Broadcast(EventUpdated([id], s.status))]
        else [];
      Step(Ok(200, s), Store(st.slots[id := s], st.requests), outbox)
  }

  /** Deletes one of the caller's own slots, whatever its status, and tells
      every client. */
  function DeleteEvent(st: Store, caller: UserId, id: SlotId): (r: Step<bool>)
    ensures r.response.Ok? <==> OwnedBy(st.slots, id, caller)
    ensures !OwnedBy(st.slots, id, caller) ==>
      r.response == Fail(404, "Not found") && r.store == st && r.outbox == []
    ensures r.response.Ok? ==>
      && r.response == Ok(200, true)
      && id !in r.store.slots
      && OthersUnchanged(st, r.store, id)
      && r.outbox == [Broadcast(EventDeleted(id, caller))]
  {
    if !OwnedBy(st.slots, id, caller) then Refuse(st, 404, "Not found")
    else Step(Ok(200, true), Store(st.slots - {id}, st.requests), [Broadcast(EventDeleted(id, caller))])
  }

  /** The status only changes when the body supplies one, so the update rule
      "status changed, or status supplied" never fires without a supplied
      status, and fires on every real status change. */
  lemma UpdateBroadcastsOnStatusChange(st: Store, caller: UserId, id: SlotId, patch: SlotPatch)
    requires OwnedBy(st.slots, id, caller)
    requires GetOr(patch.status, st.slots[id].status) != st.slots[id].status
    ensures UpdateEvent(st, caller, id, patch).outbox ==
      [Broadcast(EventUpdated([id], patch.status.value))]
  {
  }

  /** A slot created by the caller is announced exactly when it is on the
      marketplace of the other users. */
  lemma CreateAnnouncesMarketEntries(st: Store, caller: UserId, body: NewSlotFields, freshId: SlotId,
                                     viewer: UserId)
    requires freshId !in st.slots
    requires viewer != caller
    requires Complete(body)
    ensures
      var r := CreateEvent(st, caller, body, freshId);
      r.outbox != [] <==> OnMarket(r.store.slots[freshId], viewer)
  {
  }

  /** Whenever an update moves the slot on to or off some viewer's
      marketplace, every client is told, with the slot's new status. */
  lemma UpdateAnnouncesMarketChanges(st: Store, caller: UserId, id: SlotId, patch: SlotPatch, viewer: UserId)
    requires OwnedBy(st.slots, id, caller)
    requires OnMarket(st.slots[id], viewer) != OnMarket(UpdateEvent(st, caller, id, patch).store.slots[id], viewer)
    ensures
      var r := UpdateEvent(st, caller, id, patch);
      r.outbox == [Broadcast(EventUpdated([id], r.store.slots[id].status))]
  {
  }
}
