/**
  The conversation endpoints: find-or-create a conversation between the
  caller and a receiver, list the caller's conversations with the other
  participant's profile, and list a conversation's messages for a participant.
  Every handler sits behind the authentication middleware, so the caller's
  user id is always known.
*/
module ConversationControllers {
  import opened Wrappers
  import opened Store
  import opened Http
  import Schemas
  import Relay

  const ServerErrorRetry: string := "Server Error. Please try again later."
  const ServerError: string := "Server Error"
  const NotAuthorized: string := "Not Authorized"

  /** `{ participants: { $all: [a, b] } }`: the conversation includes both users. */
  predicate Between(c: Conversation, a: Id, b: Id)
  {
    a in c.participants && b in c.participants
  }

  /** `Conversation.findOne` for the pair: the first stored conversation between them. */
  function FindBetween(convs: seq<Conversation>, a: Id, b: Id): Option<Conversation>
  {
    Find(convs, (c: Conversation) => Between(c, a, b))
  }

  /**
    `startConversation`: (1) look for a conversation between caller and
    receiver; return it if found, otherwise (2) create one with participants
    `[caller, receiver]` and return that. Both answer 200.
  */
  function StartConversation(db: Db, caller: Id, receiverId: Id, newId: Id, now: nat, fault: Fault)
    : (r: (Reply<Conversation>, Db))
    ensures r.1.users == db.users && r.1.shops == db.shops && r.1.products == db.products
    ensures r.1.messages == db.messages
    ensures r.0.status == 200 || (r.0 == Reply(500, Notice(ServerErrorRetry)) && r.1 == db)
    ensures fault == FailAt(1) ==> r.0.status == 500
    ensures fault != FailAt(1) && FindBetween(db.conversations, caller, receiverId).Some? ==>
              r.1 == db && r.0.status == 200
              && r.0.body == Json(FindBetween(db.conversations, caller, receiverId).value)
    ensures r.0.status == 200 ==> r.0.body.Json? && Between(r.0.body.value, caller, receiverId)
    ensures r.0.status == 200 && r.1 != db ==>
              FindBetween(db.conversations, caller, receiverId).None?
              && r.1.conversations == db.conversations + [r.0.body.value]
              && r.0.body.value.participants == [caller, receiverId]
              && r.0.body.value.id == newId
    ensures fault !in {FailAt(1), FailAt(2)} ==> r.0.status == 200
    ensures fault !in {FailAt(1), FailAt(2)} && FindBetween(db.conversations, caller, receiverId).None? ==>
              var c := Schemas.NewConversation(newId, now, [caller, receiverId]);
              r == (Reply(200, Json(c)), db.(conversations := db.conversations + [c]))
    ensures fault == FailAt(2) ==> r.1 == db
  {
    if fault == FailAt(1) then (Reply(500, Notice(ServerErrorRetry)), db)
    else
      match FindBetween(db.conversations, caller, receiverId)
      case Some(c) => (Reply(200, Json(c)), db)
      case None =>
        if fault == FailAt(2) then (Reply(500, Notice(ServerErrorRetry)), db)
        else
          var c := Schemas.NewConversation(newId, now, [caller, receiverId]);
          (Reply(200, Json(c)), db.(conversations := db.conversations + [c]))
  }

  /** The pair query does not depend on which of the two users asks. */
  lemma FindBetweenSymmetric(convs: seq<Conversation>, a: Id, b: Id)
    ensures FindBetween(convs, a, b) == FindBetween(convs, b, a)
  {
    FindAgrees(convs, (c: Conversation) => Between(c, a, b), (c: Conversation) => Between(c, b, a));
  }

  /**
    Starting a conversation again, from either side, returns the conversation
    the first call returned and stores nothing new.
  */
  lemma StartConversationIdempotent(
    db: Db, a: Id, b: Id, id1: Id, id2: Id, now1: nat, now2: nat, swap: bool)
    ensures var (r1, db1) := StartConversation(db, a, b, id1, now1, NoFault);
            var (x, y) := if swap then (b, a) else (a, b);
            StartConversation(db1, x, y, id2, now2, NoFault) == (r1, db1)
  {
    var (r1, db1) := StartConversation(db, a, b, id1, now1, NoFault);
    FindBetweenSymmetric(db1.conversations, a, b);
    if FindBetween(db.conversations, a, b).None? {
      var c := r1.body.value;
      FindAppend(db.conversations, [c], (c: Conversation) => Between(c, a, b));
      assert Find([c], (c: Conversation) => Between(c, a, b)) == Some(c) by {
        assert FindIndex([c], (c: Conversation) => Between(c, a, b)) == Some(0);
      }
    }
  }

  /** A participant as `populate("participants", "name email")` returns it. */
  datatype Profile = Profile(id: Id, name: string, email: string)

  /** One entry of the inbox: the conversation and the participant who is not the caller. */
  datatype ConversationSummary = ConversationSummary(
    id: Id, participant: Option<Profile>, createdAt: nat, updatedAt: nat)

  /** The profile of a user document. */
  function ProfileOf(id: Id, users: map<Id, User>): Profile
    requires id in users
  {
    Profile(id, users[id].name, users[id].email)
  }

  /** The ids that have a user document. */
  function Known(users: map<Id, User>): Id -> bool
  {
    (id: Id) => id in users
  }

  /**
    Population of the participant list: ids without a user document drop
    out, and the others become profiles, one per occurrence, in the order
    of the list.
  */
  function Populate(ids: seq<Id>, users: map<Id, User>): (ps: seq<Profile>)
    ensures ProfilesAt(ps, ids, users, Positions(ids, Known(users)))
    ensures |ps| <= |ids|
    ensures forall i :: 0 <= i < |ps| ==> ps[i].id in ids && ps[i].id in users
    ensures forall i :: 0 <= i < |ps| ==> ps[i] == ProfileOf(ps[i].id, users)
    ensures forall j :: 0 <= j < |ids| && ids[j] in users ==> ProfileOf(ids[j], users) in ps
  {
    if |ids| == 0 then []
    else
      var rest := Populate(ids[1..], users);
      var ps := if ids[0] in users then [ProfileOf(ids[0], users)] + rest else rest;
      PopulateCons(ids, users, rest, Positions(ids[1..], Known(users)));
      PopulateCover(ps, ids, users, Positions(ids, Known(users)));
      ps
  }

  /** The profiles of the ids at the positions `idx`, in that order. */
  predicate ProfilesAt(ps: seq<Profile>, ids: seq<Id>, users: map<Id, User>, idx: seq<nat>)
  {
    && |ps| == |idx|
    && forall i :: 0 <= i < |idx| ==> idx[i] < |ids| && ids[idx[i]] in users && ps[i] == ProfileOf(ids[idx[i]], users)
  }

  /** One step of population: the head's profile, when it has one, before the tail's profiles. */
  lemma PopulateCons(ids: seq<Id>, users: map<Id, User>, rest: seq<Profile>, tail: seq<nat>)
    requires |ids| > 0 && ProfilesAt(rest, ids[1..], users, tail)
    ensures if ids[0] in users
            then ProfilesAt([ProfileOf(ids[0], users)] + rest, ids, users, [0] + Shift(tail))
            else ProfilesAt(rest, ids, users, Shift(tail))
  {
    var take := ids[0] in users;
    var ps := if take then [ProfileOf(ids[0], users)] + rest else rest;
    var idx := if take then [0] + Shift(tail) else Shift(tail);
    var h := if take then 1 else 0;
    forall i | 0 <= i < |idx|
      ensures idx[i] < |ids| && ids[idx[i]] in users && ps[i] == ProfileOf(ids[idx[i]], users)
    {
      if i >= h {
        assert ps[i] == rest[i - h];
        assert idx[i] == tail[i - h] + 1;
        assert ids[1..][tail[i - h]] == ids[idx[i]];
      }
    }
  }

  /** Profiles at exactly the positions of known ids cover every known id and nothing else. */
  lemma PopulateCover(ps: seq<Profile>, ids: seq<Id>, users: map<Id, User>, idx: seq<nat>)
    requires ProfilesAt(ps, ids, users, idx) && ExactPositions(idx, ids, Known(users))
    ensures |ps| <= |ids|
    ensures forall i :: 0 <= i < |ps| ==> ps[i].id in ids && ps[i].id in users
    ensures forall i :: 0 <= i < |ps| ==> ps[i] == ProfileOf(ps[i].id, users)
    ensures forall j :: 0 <= j < |ids| && ids[j] in users ==> ProfileOf(ids[j], users) in ps
  {
    IncreasingBounded(idx, |ids|);
    forall j | 0 <= j < |ids| && ids[j] in users
      ensures ProfileOf(ids[j], users) in ps
    {
      assert Known(users)(ids[j]);
      var k :| 0 <= k < |idx| && idx[k] == j;
      assert ps[k] == ProfileOf(ids[j], users);
    }
  }

  /**
    The first populated participant other than the caller is the profile of
    the first participant id that differs from the caller and has a user document.
  */
  lemma {:induction false} PopulatedOther(ids: seq<Id>, users: map<Id, User>, caller: Id)
    ensures var found := Find(ids, (id: Id) => id in users && id != caller);
            Find(Populate(ids, users), (p: Profile) => p.id != caller)
            == if found.Some? then Some(ProfileOf(found.value, users)) else None
  {
    if |ids| > 0 {
      var q := (id: Id) => id in users && id != caller;
      var o := (p: Profile) => p.id != caller;
      var ps := Populate(ids, users);
      var rest := Populate(ids[1..], users);
      PopulatedOther(ids[1..], users, caller);
      FindCons(ids, q);
      if ids[0] in users {
        assert ps == [ProfileOf(ids[0], users)] + rest;
        assert ps[1..] == rest;
        FindCons(ps, o);
      } else {
        assert ps == rest;
        assert Find(ids, q) == Find(ids[1..], q);
      }
    }
  }

  /** The inbox entry for one conversation as seen by `caller`. */
  function Summarize(c: Conversation, users: map<Id, User>, caller: Id): (s: ConversationSummary)
    ensures s.id == c.id && s.createdAt == c.createdAt && s.updatedAt == c.updatedAt
    ensures var found := Find(c.participants, (id: Id) => id in users && id != caller);
            s.participant == if found.Some? then Some(ProfileOf(found.value, users)) else None
    ensures s.participant.Some? ==>
              s.participant.value.id != caller && s.participant.value.id in c.participants
              && s.participant.value.id in users
    ensures s.participant.None? ==> forall p :: p in c.participants && p in users ==> p == caller
  {
    PopulatedOther(c.participants, users, caller);
    var other := Find(Populate(c.participants, users), (p: Profile) => p.id != caller);
    assert other.None? ==> forall p :: p in c.participants && p in users ==> p == caller by {
      if other.None? {
        forall p | p in c.participants && p in users
          ensures p == caller
        {
          var j :| 0 <= j < |c.participants| && c.participants[j] == p;
        }
      }
    }
    ConversationSummary(c.id, other, c.createdAt, c.updatedAt)
  }

  /**
    `getConversations`: (1) every conversation the caller takes part in, in
    stored order, each reduced to its summary.
  */
  function GetConversations(db: Db, caller: Id, fault: Fault): (r: Reply<seq<ConversationSummary>>)
    ensures fault == FailAt(1) <==> r == Reply(500, Notice(ServerError))
    ensures fault != FailAt(1) ==>
              var mine := Filter(db.conversations, (c: Conversation) => caller in c.participants);
              r.status == 200 && r.body.Json? && |r.body.value| == |mine|
              && forall i :: 0 <= i < |mine| ==>
                   caller in mine[i].participants && r.body.value[i] == Summarize(mine[i], db.users, caller)
  {
    if fault == FailAt(1) then Reply(500, Notice(ServerError))
    else
      var mine := Filter(db.conversations, (c: Conversation) => caller in c.participants);
      Reply(200, Json(seq(|mine|, i requires 0 <= i < |mine| => Summarize(mine[i], db.users, caller))))
  }

  /** Every stored conversation that includes the caller is listed, whichever position it is stored at. */
  lemma GetConversationsListsAll(db: Db, caller: Id, c: Conversation)
    requires c in db.conversations && caller in c.participants
    ensures exists s :: s in GetConversations(db, caller, NoFault).body.value && s.id == c.id
  {
    var mine := Filter(db.conversations, (c: Conversation) => caller in c.participants);
    var k :| 0 <= k < |db.conversations| && db.conversations[k] == c;
    assert c in mine;
    var i :| 0 <= i < |mine| && mine[i] == c;
    assert GetConversations(db, caller, NoFault).body.value[i].id == c.id;
  }

  /** `{ conversationId }`: the message belongs to the conversation. */
  function InConversation(conversationId: Id): Message -> bool
  {
    (m: Message) => m.conversationId == conversationId
  }

  /**
    `getMessages`: (1) fetch the conversation (a missing one makes the
    participant check throw), refuse callers outside it with 401, then (2)
    return the messages of that conversation in stored order.
  */
  function GetMessages(db: Db, caller: Id, conversationId: Id, fault: Fault): (r: Reply<seq<Message>>)
    ensures r.status in {200, 401, 500}
    ensures r.status == 500 <==>
              fault == FailAt(1)
              || Find(db.conversations, (c: Conversation) => c.id == conversationId).None?
              || (fault == FailAt(2)
                  && caller in Find(db.conversations, (c: Conversation) => c.id == conversationId).value.participants)
    ensures r.status == 500 ==> r.body == Notice(ServerError)
    ensures r.status == 401 <==>
              fault != FailAt(1)
              && Find(db.conversations, (c: Conversation) => c.id == conversationId).Some?
              && caller !in Find(db.conversations, (c: Conversation) => c.id == conversationId).value.participants
    ensures r.status == 401 ==> r.body == Notice(NotAuthorized)
    ensures r.status == 200 ==>
              r.body.Json?
              && PicksInOrder(r.body.value, db.messages, Positions(db.messages, InConversation(conversationId)))
              && (forall i :: 0 <= i < |r.body.value| ==>
                    r.body.value[i] in db.messages && r.body.value[i].conversationId == conversationId)
              && (forall m :: m in db.messages && m.conversationId == conversationId ==> m in r.body.value)
  {
    if fault == FailAt(1) then Reply(500, Notice(ServerError))
    else
      match Find(db.conversations, (c: Conversation) => c.id == conversationId)
      case None => Reply(500, Notice(ServerError))
      case Some(c) =>
        if caller !in c.participants then Reply(401, Notice(NotAuthorized))
        else if fault == FailAt(2) then Reply(500, Notice(ServerError))
        else
          var msgs := Filter(db.messages, InConversation(conversationId));
          assert forall m :: m in db.messages && m.conversationId == conversationId ==> m in msgs by {
            forall m | m in db.messages && m.conversationId == conversationId
              ensures m in msgs
            {
              var k :| 0 <= k < |db.messages| && db.messages[k] == m;
            }
          }
          Reply(200, Json(msgs))
  }

  /**
    A message the relay has stored (its creation did not throw) is in the
    history every participant of its conversation fetches next.
  */
  lemma SentMessageRetrievable(
    st: Relay.Server, socket: Id, conv: Conversation, senderId: Id, body: string,
    newId: Id, now: nat, fault: Fault, reader: Id)
    requires fault != FailAt(1)
    requires Find(st.db.conversations, (c: Conversation) => c.id == conv.id) == Some(conv)
    requires reader in conv.participants
    ensures var db := Relay.SendMessage(st, socket, conv.id, senderId, body, newId, now, fault).1.db;
            var r := GetMessages(db, reader, conv.id, NoFault);
            r.status == 200 && Schemas.NewMessage(newId, now, conv.id, senderId, body) in r.body.value
  {
    var db := Relay.SendMessage(st, socket, conv.id, senderId, body, newId, now, fault).1.db;
    var m := Schemas.NewMessage(newId, now, conv.id, senderId, body);
    assert db.messages[|st.db.messages|] == m;
  }
}
