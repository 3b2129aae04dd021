# SlotSwapper negotiation core in Dafny

This project models the backend of SlotSwapper. Users publish calendar slots,
offer them for exchange, and swap ownership of two slots when both sides agree.
The model covers four parts of the backend:

- the negotiation engine (`createSwapRequest`, `respondToSwap`, `listRequests`);
- the slot handlers (`listMyEvents`, `createEvent`, `updateEvent`, `deleteEvent`,
  `listSwappableFromOthers`);
- the socket connection registry (connect, disconnect, `emitToUser`);
- the SwapRequest schema.

Each HTTP handler is one atomic, pure step:
`Store × caller × input → Step(response, store', outbox)`.

- The `Store` holds two maps: slots and swap requests.
- The response is the HTTP status code, carrying either the record or the error message.
- The outbox lists what the handler emits. `ToUser(u, m)` is a call to
  `emitToUser`. `Broadcast(m)` is an `io.emit` to every client.
- `Connections.EmitToUser` turns a `ToUser` notice into one emit per live
  socket of that user.

Files and modules:

| file | module | models |
|---|---|---|
| wrappers.dfy | Wrappers | `Option` for absent body fields |
| slots.dfy | Slots | the slot record and its status |
| swap_requests.dfy | SwapRequests | the SwapRequest record and its schema |
| store.dfy | Store | store, messages, outbox notices, responses |
| sorting.dfy | Sorting | the store's filtered, sorted queries |
| connections.dfy | Connections | `backend/socket.js` |
| slot_store.dfy | SlotStore | `backend/controllers/eventController.js` |
| negotiation.dfy | Negotiation | `backend/controllers/swapController.js` |
| invariant.dfy | NegotiationInvariant | the locking invariant, scenarios, counterexamples |

Modelling choices:

- Slot ids and request ids are naturals. Only equality matters for them.
- Every handler that creates a record receives a fresh id as a parameter, with
  the precondition that the id is unused. The database normally allocates it.
- User ids and socket ids are strings. The handlers compare user ids as strings,
  and `emitToUser` looks users up by `String(userId)`. Neither step changes a
  value that is already a string.
- A body field that the handler tests for truthiness (`!mySlotId`, `!title`,
  `status || 'BUSY'`) is `None` when it is absent or falsy. The title may
  also be `Some("")`, which `CreateEvent` refuses the same way.
- An update-body field is `None` exactly when its key is `undefined`.
- The `accepted` flag of a response is its truthiness, as a `bool`.
- Start and end times are integers. They are used only for ordering.
- The `Event` schema file is not part of this model. The slot record is inferred
  from the controllers: owner, title, start, end and a status of BUSY,
  SWAPPABLE or SWAP_PENDING.

The model follows these behaviours of the handlers:

- The offered-slot lookup in `createSwapRequest` is filtered by owner, so
  naming another user's slot as the offered one gives 404.
- `respondToSwap` checks only that both slots exist, not their status.
- `updateEvent` and `deleteEvent` accept a SWAP_PENDING slot.
  `NegotiationInvariant.UpdateCanUnlockHeldSlot` and
  `NegotiationInvariant.DeleteCanOrphanPendingRequest` show the consequences
  on a concrete store.
- `event:updated` also fires when a status is supplied unchanged.
- Slot writes are sequential overwrites with no rollback. Each handler is
  modelled as a single atomic step.

The invariant `NegotiationInvariant.Valid` says:

- every PENDING request holds two distinct SWAP_PENDING slots;
- those slots are still owned by the request's requester and receiver;
- no slot is held by two PENDING requests.

The swap handlers preserve it, alone and over any sequence of calls. Under it,
a second request naming a held slot fails, and accepting a request exchanges
the two owners exactly.

## Model

| member | source | states |
|---|---|---|
| SwapRequests.Validate | backend/models/SwapRequest.js:3-11 | A record is built exactly when all four ids are present and the status is absent or one of the enum values. Its fields are the given ones, it carries the creation time, and an absent status defaults to PENDING. |
| SwapRequests.ParseRequestStatus | backend/models/SwapRequest.js:9 | A string is accepted as a request status only if it is that status's wire name. |
| SwapRequests.RequestStatusRoundTrip | backend/models/SwapRequest.js:9 | Every request status reads back as itself from its wire name (PENDING, ACCEPTED, REJECTED). |
| Connections.Connect | backend/socket.js:4-9 | An identified socket joins its user's set, which is created if absent. Every other user's entry is unchanged. An anonymous socket leaves the registry unchanged. |
| Connections.Disconnect | backend/socket.js:11-16 | Only that socket id leaves only that user's set. Other users' entries are unchanged and no user is added. Nothing happens for an anonymous socket or an unknown user. |
| Connections.ConnectKeepsSetsNonEmpty | backend/socket.js:6-9 | Connecting never leaves a user with an empty socket set. |
| Connections.DisconnectKeepsSetsNonEmpty | backend/socket.js:12-14 | A set emptied by a disconnect is deleted, so the registry never holds an empty set. |
| Connections.ConnectDisconnectRoundTrip | backend/socket.js:7-14 | On a registry without empty sets, connecting and then disconnecting a socket id the user did not already have restores the registry exactly. |
| Connections.EmitToUser | backend/socket.js:19-23 | There is exactly one emit per live socket of the user, each carrying the message, and none to any other socket. A user without an entry gets no emits. |
| SlotStore.ListMyEvents | backend/controllers/eventController.js:3-6 | Returns exactly the caller's slots, each once, ordered by ascending start time. |
| SlotStore.ListSwappableFromOthers | backend/controllers/eventController.js:58-67 | Returns exactly the SWAPPABLE slots of other users, each once, ordered by ascending start time. SWAP_PENDING slots are excluded. |
| SlotStore.CreateEvent | backend/controllers/eventController.js:8-20 | Without a non-empty title and both times the result is 400 and nothing changes. Otherwise the new slot is the caller's, its status defaults to BUSY, and no other record changes. `event:created` is broadcast exactly when the slot is SWAPPABLE. |
| SlotStore.UpdateEvent | backend/controllers/eventController.js:22-42 | Succeeds exactly on the caller's own slot, else 404 with no change. Only the fields present in the body are overwritten; the owner and all other records are unchanged. `event:updated` is broadcast exactly when a status was supplied. The code's rule, "status changed or status supplied", reduces to this because the status changes only when one is supplied. |
| SlotStore.UpdateBroadcastsOnStatusChange | backend/controllers/eventController.js:28-39 | Every real status change is broadcast, with the new status as payload. |
| SlotStore.CreateAnnouncesMarketEntries | backend/controllers/eventController.js:14-17 | A new slot is broadcast exactly when it appears on the marketplace of the other users. |
| SlotStore.UpdateAnnouncesMarketChanges | backend/controllers/eventController.js:33-39 | Whenever an update moves a slot on to or off some user's marketplace, `event:updated` is broadcast with the new status. |
| SlotStore.DeleteEvent | backend/controllers/eventController.js:44-56 | Succeeds exactly on the caller's own slot, whatever its status, else 404 with no change. Only that slot is removed, and `event:deleted` is broadcast with the slot id and the caller. |
| Negotiation.CreateSwapRequest | backend/controllers/swapController.js:5-32 | Guards in order: missing ids give 400, an offered slot not the caller's or a missing slot gives 404, a self-swap gives 400, a slot not SWAPPABLE gives 400. Failures change nothing. Success adds exactly one PENDING request (requester = caller, receiver = wanted slot's owner), sets both slots SWAP_PENDING with owners kept, changes nothing else, and sends one `swap:requested` to the receiver. |
| Negotiation.SameSlotOnBothSidesFails | backend/controllers/swapController.js:10-13 | Naming the same slot on both sides never creates a request. The caller's own slot gives 400 "Cannot swap with yourself"; any other slot gives 404. Nothing changes. |
| Negotiation.CreatedRecordMatchesSchema | backend/controllers/swapController.js:16-22 | The stored request is the record the schema builds from the same fields with status "PENDING". |
| Negotiation.RespondToSwap | backend/controllers/swapController.js:34-78 | Guards in order: missing request 404, caller not the receiver 403, not PENDING 400, missing slot 404; failures change nothing. Reject marks the request REJECTED, makes both slots SWAPPABLE with owners kept, and sends `swap:rejected` to the requester. Accept marks it ACCEPTED, gives the offered slot to the receiver and the wanted slot to the requester, both BUSY, and sends `swap:accepted` to both. |
| Negotiation.ListRequests | backend/controllers/swapController.js:80-92 | Incoming holds exactly the requests whose receiver is the caller, outgoing exactly those whose requester is the caller. Each request appears once, newest first. |
| NegotiationInvariant.CreatePreservesValid | backend/controllers/swapController.js:14-27 | Creating a request preserves the locking invariant, because only SWAPPABLE slots get locked. |
| NegotiationInvariant.RespondPreservesValid | backend/controllers/swapController.js:39-72 | Answering a request preserves the locking invariant. |
| NegotiationInvariant.RunPreservesValid | backend/controllers/swapController.js:5-78 | Any sequence of create and respond calls preserves the locking invariant. |
| NegotiationInvariant.HeldSlotRefusesSecondRequest | backend/controllers/swapController.js:14 | Under the invariant, a create naming a slot held by a PENDING request, on either side, fails and changes nothing. |
| NegotiationInvariant.SecondRequestForSameSlotFails | backend/controllers/swapController.js:10-27 | In any store, of two successive requests for the same wanted slot, the first succeeds and the second fails. |
| NegotiationInvariant.RespondAnswersOnce | backend/controllers/swapController.js:41-42 | After a successful answer, any second answer is refused (400 for the receiver, 403 for anyone else) and changes nothing. |
| NegotiationInvariant.AcceptExchangesOwners | backend/controllers/swapController.js:60-72 | Under the invariant, accepting gives each slot to the other slot's previous owner, makes both BUSY, and marks the request ACCEPTED. |
| NegotiationInvariant.RejectReturnsSlotsToMarket | backend/controllers/swapController.js:48-56 | Under the invariant, rejecting keeps both owners and puts both slots back on every other user's marketplace. The request is REJECTED. |
| NegotiationInvariant.CreateWithdrawsFromMarket | backend/controllers/swapController.js:24-27 | After a successful create, neither slot appears on anyone's marketplace. |
| NegotiationInvariant.ScenarioAccept | backend/controllers/swapController.js:16-75 | Alice offers slot 1 for Bob's slot 2, and Bob is sent `swap:requested`. Bob accepts: slot 1 becomes Bob's and slot 2 Alice's, both BUSY, the request is ACCEPTED, and both are sent `swap:accepted`, Alice first. |
| NegotiationInvariant.ScenarioReject | backend/controllers/swapController.js:48-55 | Bob rejects Alice's request. The request is REJECTED, both slots are SWAPPABLE again with their old owners, and Alice is sent `swap:rejected`. |
| NegotiationInvariant.ScenarioSelfSwap | backend/controllers/swapController.js:13 | Naming one's own slot as the wanted slot gives 400 "Cannot swap with yourself". |
| NegotiationInvariant.UpdateCanUnlockHeldSlot | backend/controllers/eventController.js:25-30 | Counterexample: the owner can set a held slot back to SWAPPABLE. It reappears on the marketplace while its request is still PENDING, which breaks the invariant. A third user then creates a swappable slot and asks for the unlocked slot, and that request succeeds, so one slot is promised to two PENDING requests. |
| NegotiationInvariant.DeleteCanOrphanPendingRequest | backend/controllers/eventController.js:44-48 | Counterexample: the owner can delete a slot held by a PENDING request. After that, every answer to the request fails and changes nothing: the receiver gets 404 and any other caller 403, whether accepting or rejecting. The request stays PENDING and the other slot stays SWAP_PENDING. |
| NegotiationInvariant.DeleteOfUnheldSlotPreservesValid | backend/controllers/eventController.js:43-54 | Deleting a slot that no PENDING request names keeps the invariant, so only the deletion of a held slot can orphan a request. |
| NegotiationInvariant.ReceiverAnswerSucceeds | backend/controllers/swapController.js:44-46 | Under the invariant, the receiver's answer to a PENDING request always succeeds, accepting or rejecting: the 404 "Events missing" cannot happen. |

## Left out

- Persistence is not modelled: Mongoose, `populate` joins and the database connection. Ids and timestamps are inputs.
- A malformed id makes the store throw a cast error. The model's ids are always well formed, so this path is not modelled.
- Schema validation of slot fields on save is not modelled, because the Event schema file is not part of this model.
- The `updatedAt` timestamp is not modelled.
- Authentication is not modelled: JWT verification, password hashing and the user record. The caller id is a trusted input.
- Express routing is not modelled, including the `/swappable-slots` URL rewrite.
- The Socket.IO transport is not modelled. Emits are outbox entries, and message delivery is out of scope.
- The `io` object is assumed to be present, so the `if (io && …)` tests reduce to their second half.
- Concurrency and partial failure are not modelled. Each handler performs several non-atomic `save()` calls, and the model treats each handler as one atomic step, so interleavings are out of scope.
- The frontend is not modelled, including its locale- and timezone-dependent date formatting.
- Negotiation.ListRequests: records are returned without the joined user and slot fields that `populate` adds.
- SlotStore.ListSwappableFromOthers: slots are returned without the joined owner name and email that `populate` adds.
- SlotStore.CreateEvent: the fresh slot id is only required to be unused by a slot that currently exists. The model may therefore reuse the id of a deleted slot, which the database never does. A pending request naming a deleted slot could then name a new, unrelated slot.
- Sorting.Query: records with equal sort keys may come out in any order, as they may from the store.
