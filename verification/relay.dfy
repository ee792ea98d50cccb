/**
  The realtime chat relay of the server: the `activeUsers` registry from user
  id to socket id, and the `setup`, `disconnect` and `sendMessage` socket
  handlers, each an atomic transition over the registry, the database and the
  list of events emitted so far.
*/
module Relay {
  import opened Wrappers
  import opened Store
  import Schemas

  /** One own property of `activeUsers`: a user id and the socket it was last set up on. */
  datatype Entry = Entry(user: Id, socket: Id)

  /** `activeUsers`, its properties in JavaScript's enumeration order (insertion order). */
  type Registry = seq<Entry>

  /** An object has at most one property per key. */
  predicate UniqueUsers(reg: Registry)
  {
    forall i, j :: 0 <= i < j < |reg| ==> reg[i].user != reg[j].user
  }

  /** `activeUsers[u]`: the socket recorded for `u`, if any. */
  function Lookup(reg: Registry, u: Id): (r: Option<Id>)
    ensures r.Some? ==> Entry(u, r.value) in reg
    ensures r.None? <==> forall i :: 0 <= i < |reg| ==> reg[i].user != u
  {
    if |reg| == 0 then None
    else if reg[0].user == u then Some(reg[0].socket)
    else Lookup(reg[1..], u)
  }

  /** `Object.keys(activeUsers)`. */
  function Keys(reg: Registry): (ks: seq<Id>)
    ensures |ks| == |reg| && forall i :: 0 <= i < |reg| ==> ks[i] == reg[i].user
  {
    if |reg| == 0 then [] else [reg[0].user] + Keys(reg[1..])
  }

  /** The key list names exactly the users that have an entry. */
  lemma {:induction false} KeysAreRegisteredUsers(reg: Registry, u: Id)
    ensures u in Keys(reg) <==> Lookup(reg, u).Some?
  {
    if |reg| > 0 {
      KeysAreRegisteredUsers(reg[1..], u);
    }
  }

  /**
    `activeUsers[u] = s`: an existing property keeps its place and takes the
    new value; a new property goes last.
  */
  function Assign(reg: Registry, u: Id, s: Id): (r: Registry)
    ensures Entry(u, s) in r
    ensures forall e :: e in r && e != Entry(u, s) ==> e in reg
    ensures |r| == if Lookup(reg, u).Some? then |reg| else |reg| + 1
  {
    if |reg| == 0 then [Entry(u, s)]
    else if reg[0].user == u then [Entry(u, s)] + reg[1..]
    else [reg[0]] + Assign(reg[1..], u, s)
  }

  /** Assignment records the new socket for `u`, leaves every other user alone and keeps the key order. */
  lemma AssignEffect(reg: Registry, u: Id, s: Id)
    ensures Lookup(Assign(reg, u, s), u) == Some(s)
    ensures forall v :: v != u ==> Lookup(Assign(reg, u, s), v) == Lookup(reg, v)
    ensures Lookup(reg, u).Some? ==> Keys(Assign(reg, u, s)) == Keys(reg)
    ensures Lookup(reg, u).None? ==> Keys(Assign(reg, u, s)) == Keys(reg) + [u]
    ensures UniqueUsers(reg) ==> UniqueUsers(Assign(reg, u, s))
  {
    forall v {
      AssignLookup(reg, u, s, v);
    }
    AssignKeys(reg, u, s);
    if UniqueUsers(reg) {
      AssignUnique(reg, u, s);
    }
  }

  lemma {:induction false} AssignLookup(reg: Registry, u: Id, s: Id, v: Id)
    ensures Lookup(Assign(reg, u, s), v) == if v == u then Some(s) else Lookup(reg, v)
  {
    if |reg| > 0 && reg[0].user != u {
      AssignLookup(reg[1..], u, s, v);
      assert Assign(reg, u, s)[1..] == Assign(reg[1..], u, s);
    } else if |reg| > 0 {
      assert Assign(reg, u, s)[1..] == reg[1..];
    }
  }

  lemma {:induction false} AssignKeys(reg: Registry, u: Id, s: Id)
    ensures Lookup(reg, u).Some? ==> Keys(Assign(reg, u, s)) == Keys(reg)
    ensures Lookup(reg, u).None? ==> Keys(Assign(reg, u, s)) == Keys(reg) + [u]
  {
    var r := Assign(reg, u, s);
    if |reg| > 0 && reg[0].user != u {
      AssignKeys(reg[1..], u, s);
      assert r[1..] == Assign(reg[1..], u, s);
    } else if |reg| > 0 {
      assert r[1..] == reg[1..];
    }
  }

  lemma {:induction false} AssignUnique(reg: Registry, u: Id, s: Id)
    requires UniqueUsers(reg)
    ensures UniqueUsers(Assign(reg, u, s))
  {
    var r := Assign(reg, u, s);
    if |reg| > 0 && reg[0].user != u {
      var rest := Assign(reg[1..], u, s);
      AssignUnique(reg[1..], u, s);
      assert r[1..] == rest;
      AssignLookup(reg[1..], u, s, reg[0].user);
      forall i, j | 0 <= i < j < |r|
        ensures r[i].user != r[j].user
      {
        if i == 0 {
          assert r[j] == rest[j - 1];
          assert Lookup(rest, reg[0].user).None?;
        } else {
          assert r[i] == rest[i - 1] && r[j] == rest[j - 1];
        }
      }
    } else if |reg| > 0 {
      assert r[1..] == reg[1..];
      assert forall i :: 0 < i < |r| ==> r[i] == reg[i];
    }
  }

  /** Position of the first entry whose socket is `s` (the `for ... in` scan with `break`). */
  function FirstWithSocket(reg: Registry, s: Id): Option<nat>
  {
    FindIndex(reg, (e: Entry) => e.socket == s)
  }

  /**
    The loop of `disconnect`: delete the first property whose value is the
    closing socket and stop; nothing else is touched.
  */
  function Release(reg: Registry, s: Id): (r: Registry)
    ensures (forall i :: 0 <= i < |reg| ==> reg[i].socket != s) ==> r == reg
    ensures (exists i :: 0 <= i < |reg| && reg[i].socket == s) ==>
              exists k :: 0 <= k < |reg| && reg[k].socket == s
                && (forall j :: 0 <= j < k ==> reg[j].socket != s)
                && r == reg[..k] + reg[k + 1..]
    ensures |r| >= |reg| - 1
  {
    match FirstWithSocket(reg, s)
    case None => reg
    case Some(k) => reg[..k] + reg[k + 1..]
  }

  /** Removing the first entry for a socket keeps the keys distinct and touches one user at most. */
  lemma ReleaseEffect(reg: Registry, s: Id)
    requires UniqueUsers(reg)
    ensures UniqueUsers(Release(reg, s))
    ensures forall v :: Lookup(Release(reg, s), v) == Lookup(reg, v)
                     || (Lookup(reg, v) == Some(s) && Lookup(Release(reg, s), v).None?)
    ensures forall v, w :: v != w && Lookup(Release(reg, s), v) != Lookup(reg, v) ==> Lookup(Release(reg, s), w) == Lookup(reg, w)
  {
    var r := Release(reg, s);
    match FirstWithSocket(reg, s)
    case None =>
    case Some(k) =>
      LookupAt(reg, k);
      forall v
        ensures Lookup(r, v) == (if v == reg[k].user then None else Lookup(reg, v))
      {
        LookupRemove(reg, k, v);
      }
      LookupRemove(reg, k, reg[k].user);
  }

  /** Deleting the entry at position `k` of a registry with distinct keys. */
  lemma {:induction false} LookupRemove(reg: Registry, k: nat, v: Id)
    requires UniqueUsers(reg) && k < |reg|
    ensures UniqueUsers(reg[..k] + reg[k + 1..])
    ensures Lookup(reg[..k] + reg[k + 1..], v) == if v == reg[k].user then None else Lookup(reg, v)
    decreases k
  {
    var r := reg[..k] + reg[k + 1..];
    if k == 0 {
      assert r == reg[1..];
    } else {
      LookupRemove(reg[1..], k - 1, v);
      assert reg[1..][..k - 1] + reg[1..][k..] == r[1..];
      assert r[0] == reg[0];
    }
  }

  /** What the server emits on a socket. */
  datatype Event =
    | ActiveUsers(users: seq<Id>)        // "get-active-users"
    | ReceiveMessage(message: Message)   // "receiveMessage"
    | ReceiverMessage(message: Message)  // "receiverMessage"

  /** `io.emit` reaches every connected socket; `io.to(s).emit` and `socket.emit` reach one. */
  datatype Emit = ToAll(event: Event) | ToSocket(socket: Id, event: Event)

  /** The relay's state: the registry, the database, and every event emitted so far. */
  datatype Server = Server(activeUsers: Registry, db: Db, outbox: seq<Emit>)

  /** `setup`: record the calling socket for the user, then broadcast the key list. */
  function Setup(st: Server, socket: Id, userId: Id): (r: Server)
    ensures Lookup(r.activeUsers, userId) == Some(socket)
    ensures forall v :: v != userId ==> Lookup(r.activeUsers, v) == Lookup(st.activeUsers, v)
    ensures r.outbox == st.outbox + [ToAll(ActiveUsers(Keys(r.activeUsers)))]
    ensures r.db == st.db
    ensures UniqueUsers(st.activeUsers) ==> UniqueUsers(r.activeUsers)
  {
    AssignEffect(st.activeUsers, userId, socket);
    var reg := Assign(st.activeUsers, userId, socket);
    Server(reg, st.db, st.outbox + [ToAll(ActiveUsers(Keys(reg)))])
  }

  /**
    `disconnect`: drop the first user entry whose socket is the closing one, if
    any, then broadcast the key list.
  */
  function Disconnect(st: Server, socket: Id): (r: Server)
    requires UniqueUsers(st.activeUsers)
    ensures UniqueUsers(r.activeUsers)
    ensures forall v :: Lookup(r.activeUsers, v) == Lookup(st.activeUsers, v)
                     || (Lookup(st.activeUsers, v) == Some(socket) && Lookup(r.activeUsers, v).None?)
    ensures forall v, w :: v != w && Lookup(r.activeUsers, v) != Lookup(st.activeUsers, v) ==>
              Lookup(r.activeUsers, w) == Lookup(st.activeUsers, w)
    ensures (forall v :: Lookup(st.activeUsers, v) != Some(socket)) ==> r.activeUsers == st.activeUsers
    ensures (exists v :: Lookup(st.activeUsers, v) == Some(socket)) ==> |r.activeUsers| == |st.activeUsers| - 1
    ensures r.outbox == st.outbox + [ToAll(ActiveUsers(Keys(r.activeUsers)))]
    ensures r.db == st.db
  {
    ReleaseEffect(st.activeUsers, socket);
    var reg := Release(st.activeUsers, socket);
    assert (exists v :: Lookup(st.activeUsers, v) == Some(socket)) ==>
             exists i :: 0 <= i < |st.activeUsers| && st.activeUsers[i].socket == socket;
    assert (forall v :: Lookup(st.activeUsers, v) != Some(socket)) ==>
             forall i :: 0 <= i < |st.activeUsers| ==> st.activeUsers[i].socket != socket by {
      if exists i :: 0 <= i < |st.activeUsers| && st.activeUsers[i].socket == socket {
        var i :| 0 <= i < |st.activeUsers| && st.activeUsers[i].socket == socket;
        LookupAt(st.activeUsers, i);
      }
    }
    Server(reg, st.db, st.outbox + [ToAll(ActiveUsers(Keys(reg)))])
  }

  /** In a registry with distinct keys, each entry is what its key looks up. */
  lemma {:induction false} LookupAt(reg: Registry, i: nat)
    requires UniqueUsers(reg) && i < |reg|
    ensures Lookup(reg, reg[i].user) == Some(reg[i].socket)
    decreases i
  {
    if i > 0 {
      LookupAt(reg[1..], i - 1);
    }
  }

  /** What became of one `sendMessage` event. */
  datatype SendOutcome =
    | Delivered(receiverSocket: Id, message: Message)  // both emits happened
    | ReceiverOffline(message: Message)                // stored, nothing emitted
    | Failed(step: nat)                                // thrown at the given await, caught and logged

  /** The key `activeUsers[receiverId]` reads: `find` yields undefined when every participant is the sender. */
  const UndefinedKey: Id := "undefined"

  /** The recipient key: the first participant other than the sender, else `"undefined"`. */
  function ReceiverKey(participants: seq<Id>, senderId: Id): (k: Id)
    ensures k == UndefinedKey || (k in participants && k != senderId)
    ensures k != UndefinedKey ==> exists i :: 0 <= i < |participants| && participants[i] == k
                                    && forall j :: 0 <= j < i ==> participants[j] == senderId
    ensures (forall j :: 0 <= j < |participants| ==> participants[j] == senderId) ==> k == UndefinedKey
    ensures (exists j :: 0 <= j < |participants| && participants[j] != senderId) ==>
              k != senderId && exists i :: 0 <= i < |participants| && participants[i] == k
                                && forall j :: 0 <= j < i ==> participants[j] == senderId
  {
    FirstOther(participants, senderId).GetOr(UndefinedKey)
  }

  /**
    The socket `sendMessage` delivers to once the message is stored: the
    conversation is found, its receiver key has a socket id on record, and that
    id is truthy (non-empty).
  */
  function ReceiverSocket(st: Server, conversationId: Id, senderId: Id): Option<Id>
  {
    match Find(st.db.conversations, (c: Conversation) => c.id == conversationId)
    case None => None
    case Some(c) =>
      match Lookup(st.activeUsers, ReceiverKey(c.participants, senderId))
      case None => None
      case Some(rs) => if rs != "" then Some(rs) else None
  }

  /**
    `sendMessage`: (1) create the message, (2) populate its sender, (3) fetch
    the conversation, then emit to the receiver and acknowledge to the sender
    only when the receiver has a (truthy) socket id on record.
  */
  function SendMessage(
    st: Server, socket: Id, conversationId: Id, senderId: Id, body: string,
    newId: Id, now: nat, fault: Fault): (r: (SendOutcome, Server))
    ensures r.1.activeUsers == st.activeUsers
    ensures r.1.db.users == st.db.users && r.1.db.shops == st.db.shops
    ensures r.1.db.products == st.db.products && r.1.db.conversations == st.db.conversations
    ensures fault == FailAt(1) ==> r == (Failed(1), st)
    ensures fault != FailAt(1) ==>
              r.1.db.messages == st.db.messages + [Schemas.NewMessage(newId, now, conversationId, senderId, body)]
    ensures !r.0.Delivered? ==> r.1.outbox == st.outbox
    ensures r.0.Delivered? <==>
              fault !in {FailAt(1), FailAt(2), FailAt(3)} && ReceiverSocket(st, conversationId, senderId).Some?
    ensures r.0.Delivered? ==>
              r.0.receiverSocket == ReceiverSocket(st, conversationId, senderId).value
              && r.0.message == Schemas.NewMessage(newId, now, conversationId, senderId, body)
              && r.1.outbox == st.outbox + [ToSocket(r.0.receiverSocket, ReceiveMessage(r.0.message)),
                                            ToSocket(socket, ReceiverMessage(r.0.message))]
    ensures r.0.Failed? <==>
              fault in {FailAt(1), FailAt(2), FailAt(3)}
              || Find(st.db.conversations, (c: Conversation) => c.id == conversationId).None?
  {
    if fault == FailAt(1) then (Failed(1), st)
    else
      var m := Schemas.NewMessage(newId, now, conversationId, senderId, body);
      var stored := st.(db := st.db.(messages := st.db.messages + [m]));
      if fault == FailAt(2) then (Failed(2), stored)
      else if fault == FailAt(3) then (Failed(3), stored)
      else if Find(st.db.conversations, (c: Conversation) => c.id == conversationId).None? then
        (Failed(3), stored)  // reading `participants` of a null conversation throws
      else
        match ReceiverSocket(st, conversationId, senderId)
        case Some(rs) =>
          (Delivered(rs, m), stored.(outbox := st.outbox + [ToSocket(rs, ReceiveMessage(m)), ToSocket(socket, ReceiverMessage(m))]))
        case None => (ReceiverOffline(m), stored)
  }

  /**
    A user set up on `s1` and then on `s2` keeps `s2` when `s1` later
    disconnects: the stale socket's teardown does not erase the newer entry.
  */
  lemma StaleDisconnectKeepsNewerSocket(st: Server, u: Id, s1: Id, s2: Id)
    requires UniqueUsers(st.activeUsers)
    requires s1 != s2
    ensures var st1 := Setup(Setup(st, s1, u), s2, u);
            Lookup(Disconnect(st1, s1).activeUsers, u) == Some(s2)
  {
    var st1 := Setup(Setup(st, s1, u), s2, u);
    var r := Disconnect(st1, s1);
    assert Lookup(st1.activeUsers, u) == Some(s2);
  }

  /** Two users set up on one socket: its disconnect removes one entry at most, so one of them keeps it. */
  lemma SharedSocketOneSurvives(st: Server, u: Id, v: Id, s: Id)
    requires UniqueUsers(st.activeUsers)
    requires u != v
    ensures var st1 := Setup(Setup(st, s, u), s, v);
            var r := Disconnect(st1, s);
            Lookup(r.activeUsers, u) == Some(s) || Lookup(r.activeUsers, v) == Some(s)
  {
    var st1 := Setup(Setup(st, s, u), s, v);
    var r := Disconnect(st1, s);
    assert Lookup(st1.activeUsers, u) == Some(s) && Lookup(st1.activeUsers, v) == Some(s);
  }

  /** Every message is persisted unless its own creation fails, whatever happens afterwards. */
  lemma PersistBeforeLookup(st: Server, socket: Id, conversationId: Id, senderId: Id, body: string, newId: Id, now: nat, fault: Fault)
    requires fault != FailAt(1)
    requires Find(st.db.conversations, (c: Conversation) => c.id == conversationId).None?
    ensures var r := SendMessage(st, socket, conversationId, senderId, body, newId, now, fault);
            r.0.Failed? && r.1.outbox == st.outbox
            && r.1.db.messages[|st.db.messages|] == Schemas.NewMessage(newId, now, conversationId, senderId, body)
  {
  }

  /**
    A message sent in a stored conversation whose first other participant is
    online reaches that participant's socket, and the sender is acknowledged.
  */
  lemma DeliversToOnlineReceiver(
    st: Server, socket: Id, conv: Conversation, senderId: Id, receiverId: Id, rs: Id,
    body: string, newId: Id, now: nat)
    requires Find(st.db.conversations, (c: Conversation) => c.id == conv.id) == Some(conv)
    requires FirstOther(conv.participants, senderId) == Some(receiverId)
    requires Lookup(st.activeUsers, receiverId) == Some(rs) && rs != ""
    ensures var r := SendMessage(st, socket, conv.id, senderId, body, newId, now, NoFault);
            var m := Schemas.NewMessage(newId, now, conv.id, senderId, body);
            && r.0 == Delivered(rs, m)
            && r.1.db.messages == st.db.messages + [m]
            && r.1.outbox == st.outbox + [ToSocket(rs, ReceiveMessage(m)), ToSocket(socket, ReceiverMessage(m))]
            && ToSocket(rs, ReceiveMessage(m)) in r.1.outbox
  {
    assert ReceiverKey(conv.participants, senderId) == receiverId;
    var m := Schemas.NewMessage(newId, now, conv.id, senderId, body);
    var pushed := [ToSocket(rs, ReceiveMessage(m)), ToSocket(socket, ReceiverMessage(m))];
    assert (st.outbox + pushed)[|st.outbox|] == pushed[0];
  }

  /**
    When the receiver has no socket on record, the message is still stored
    but nothing is emitted: neither the push nor the sender's acknowledgment.
  */
  lemma OfflineReceiverGetsNothing(
    st: Server, socket: Id, conv: Conversation, senderId: Id, body: string, newId: Id, now: nat)
    requires Find(st.db.conversations, (c: Conversation) => c.id == conv.id) == Some(conv)
    requires Lookup(st.activeUsers, ReceiverKey(conv.participants, senderId)).None?
    ensures var r := SendMessage(st, socket, conv.id, senderId, body, newId, now, NoFault);
            && r.0 == ReceiverOffline(Schemas.NewMessage(newId, now, conv.id, senderId, body))
            && r.1.outbox == st.outbox
            && r.1.db.messages == st.db.messages + [Schemas.NewMessage(newId, now, conv.id, senderId, body)]
  {
  }
}
