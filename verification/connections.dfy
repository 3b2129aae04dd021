/** The connection registry: which live sockets belong to which user, and
    fan-out of a message to all of one user's sockets. */
module Connections {
  import opened Wrappers
  import opened Slots
  import opened Store
  import opened Sorting

  type SocketId = string

  /** User id (as a string) to the ids of that user's live sockets. */
  type Registry = map<UserId, set<SocketId>>

  /** A message sent on one socket. */
  datatype Emit = Emit(socket: SocketId, message: Message)

  /** The registry never keeps a user whose last socket has gone. */
  predicate NoEmptySets(reg: Registry)
  {
    forall u :: u in reg ==> reg[u] != {}
  }

  /** The live sockets of `user`; none when the user has no entry. */
  function SocketsOf(reg: Registry, user: UserId): set<SocketId>
  {
    if user in reg then reg[user] else {}
  }

  /** The handshake's user id counts only when it is present and non-empty. */
  predicate Identified(handshakeUser: Option<UserId>)
  {
    handshakeUser.Some? && handshakeUser.value != ""
  }

  /** A new connection: an identified socket joins its user's set, which is
      created when the user had none; an anonymous socket is not recorded. */
  function Connect(reg: Registry, handshakeUser: Option<UserId>, sid: SocketId): (r: Registry)
    ensures !Identified(handshakeUser) ==> r == reg
    ensures Identified(handshakeUser) ==>
      && r.Keys == reg.Keys + {handshakeUser.value}
      && SocketsOf(r, handshakeUser.value) == SocketsOf(reg, handshakeUser.value) + {sid}
    ensures forall u :: u in reg && !(Identified(handshakeUser) && u == handshakeUser.value) ==>
      u in r && r[u] == reg[u]
  {
    if Identified(handshakeUser) then
      var u := handshakeUser.value;
      var current := if u in reg then reg[u] else {};
      reg[u := current + {sid}]
    else
      reg
  }

  /** The socket's disconnect: it leaves its user's set, and a set left empty
      is dropped. Nothing happens for an anonymous socket or an unknown user. */
  function Disconnect(reg: Registry, handshakeUser: Option<UserId>, sid: SocketId): (r: Registry)
    ensures !(Identified(handshakeUser) && handshakeUser.value in reg) ==> r == reg
    ensures Identified(handshakeUser) ==>
      SocketsOf(r, handshakeUser.value) == SocketsOf(reg, handshakeUser.value) - {sid}
    ensures forall u :: u in reg && !(Identified(handshakeUser) && u == handshakeUser.value) ==>
      u in r && r[u] == reg[u]
    ensures r.Keys <= reg.Keys
  {
    if Identified(handshakeUser) && handshakeUser.value in reg then
      var u := handshakeUser.value;
      var remaining := reg[u] - {sid};
      if |remaining| == 0 then reg - {u} else reg[u := remaining]
    else
      reg
  }

  /** Connecting never leaves an empty set behind. */
  lemma ConnectKeepsSetsNonEmpty(reg: Registry, handshakeUser: Option<UserId>, sid: SocketId)
    requires NoEmptySets(reg)
    ensures NoEmptySets(Connect(reg, handshakeUser, sid))
  {
  }

  /** Disconnecting never leaves an empty set behind. */
  lemma DisconnectKeepsSetsNonEmpty(reg: Registry, handshakeUser: Option<UserId>, sid: SocketId)
    requires NoEmptySets(reg)
    ensures NoEmptySets(Disconnect(reg, handshakeUser, sid))
  {
  }

  /** A connection that comes and goes leaves the registry as it found it,
      provided the socket id was not already recorded for that user. */
  lemma ConnectDisconnectRoundTrip(reg: Registry, handshakeUser: Option<UserId>, sid: SocketId)
    requires NoEmptySets(reg)
    requires Identified(handshakeUser) ==> sid !in SocketsOf(reg, handshakeUser.value)
    ensures Disconnect(Connect(reg, handshakeUser, sid), handshakeUser, sid) == reg
  {
    if Identified(handshakeUser) {
      var u := handshakeUser.value;
      var r := Disconnect(Connect(reg, handshakeUser, sid), handshakeUser, sid);
      if u in reg {
        assert reg[u] + {sid} - {sid} == reg[u];
      } else {
        assert {sid} - {sid} == {};
      }
      assert r.Keys == reg.Keys;
    }
  }

  /** Sends `message` on every live socket of `user`, once each, and on no
      other socket. */
  method EmitToUser(reg: Registry, user: UserId, message: Message) returns (emits: seq<Emit>)
    ensures user !in reg ==> emits == []
    ensures |emits| == |SocketsOf(reg, user)|
    ensures forall i :: 0 <= i < |emits| ==> emits[i].message == message
    ensures forall i :: 0 <= i < |emits| ==> emits[i].socket in SocketsOf(reg, user)
    ensures forall i, j :: 0 <= i < j < |emits| ==> emits[i].socket != emits[j].socket
    ensures forall sid :: sid in SocketsOf(reg, user) ==> Emit(sid, message) in emits
  {
    var targets := SocketsOf(reg, user);
    var pending := targets;
    var order: seq<SocketId> := [];
    while pending != {}
      invariant pending <= targets
      invariant multiset(order) + multiset(pending) == multiset(targets)
      decreases pending
    {
      var sid :| sid in pending;
      assert multiset(pending) == multiset(pending - {sid}) + multiset{sid};
      order := order + [sid];
      pending := pending - {sid};
    }
    ExactlyOnce(order, targets);
    assert |multiset(order)| == |multiset(targets)|;
    emits := seq(|order|, i requires 0 <= i < |order| => Emit(order[i], message));
    forall sid | sid in targets
      ensures Emit(sid, message) in emits
    {
      var i :| 0 <= i < |order| && order[i] == sid;
      assert emits[i] == Emit(sid, message);
    }
  }
}
