/**
  The chat page's own logic: the guarded send of the typed message over the
  socket, the listener that appends incoming messages of the open
  conversation, and the selection of a conversation, which replaces the
  message list with the fetched history.
*/
module ChatPage {
  import opened Wrappers
  import opened Store
  import Text
  import Relay
  import Schemas
  import ConversationControllers

  /** The page state the handlers read and write (the inbox list is left to rendering). */
  datatype ChatView = ChatView(activeChat: Option<Id>, messages: seq<Message>, loading: bool, newMessage: string)

  /** The `sendMessage` payload. */
  datatype Payload = Payload(conversationId: Id, senderId: Id, body: string)

  /** `!newMessage.trim() || !socket || !activeChat` fails: there is text, a socket and an open chat. */
  predicate CanSend(v: ChatView, connected: bool)
  {
    Text.Trim(v.newMessage) != "" && connected && v.activeChat.Some?
  }

  /**
    `handleSendMessage`: when the guard passes, emit the untrimmed text for the
    open conversation and clear the input; otherwise do nothing. The message
    list is never touched here: the sender's own message shows up only through
    a later history fetch.
  */
  function HandleSendMessage(v: ChatView, userId: Id, connected: bool): (r: (ChatView, Option<Payload>))
    ensures r.1.Some? <==> !Text.AllSpace(v.newMessage) && connected && v.activeChat.Some?
    ensures r.1.None? ==> r.0 == v
    ensures r.1.Some? ==>
              r.1.value.conversationId == v.activeChat.value
              && r.1.value.senderId == userId
              && r.1.value.body == v.newMessage
              && r.0 == v.(newMessage := "")
    ensures r.0.messages == v.messages && r.0.activeChat == v.activeChat
  {
    Text.TrimEmptyIffAllSpace(v.newMessage);
    if !CanSend(v, connected) then (v, None)
    else (v.(newMessage := ""), Some(Payload(v.activeChat.value, userId, v.newMessage)))
  }

  /** `handleReceiveMessage`: append a message of the open conversation, ignore any other. */
  function HandleReceiveMessage(v: ChatView, m: Message): (r: ChatView)
    ensures v.activeChat == Some(m.conversationId) ==> r.messages == v.messages + [m]
    ensures v.activeChat != Some(m.conversationId) ==> r == v
    ensures r.activeChat == v.activeChat && r.loading == v.loading && r.newMessage == v.newMessage
  {
    if v.activeChat == Some(m.conversationId) then v.(messages := v.messages + [m]) else v
  }

  /** The socket listener the page registers: `receiveMessage` only. */
  function OnServerEvent(v: ChatView, e: Relay.Event): (r: ChatView)
    ensures !e.ReceiveMessage? ==> r == v
    ensures e.ReceiveMessage? && v.activeChat == Some(e.message.conversationId) ==>
              r == v.(messages := v.messages + [e.message])
    ensures e.ReceiveMessage? && v.activeChat != Some(e.message.conversationId) ==> r == v
  {
    match e
    case ReceiveMessage(m) => HandleReceiveMessage(v, m)
    case _ => v
  }

  /**
    `selectConversation`: open the conversation and set loading; then either
    replace the list with the fetched history, or keep the old list when the
    fetch fails. Loading ends either way.
  */
  function SelectConversation(v: ChatView, conversationId: Id, fetched: Option<seq<Message>>): (r: ChatView)
    ensures r.activeChat == Some(conversationId) && !r.loading
    ensures fetched.Some? ==> r.messages == fetched.value
    ensures fetched.None? ==> r.messages == v.messages
    ensures r.newMessage == v.newMessage
  {
    var shown := v.(activeChat := Some(conversationId), loading := true);
    match fetched
    case Some(history) => shown.(messages := history, loading := false)
    case None => shown.(loading := false)
  }

  /** Every message on screen belongs to the open conversation. */
  predicate ShowsOnlyOpenChat(v: ChatView)
  {
    v.activeChat.Some? && forall i :: 0 <= i < |v.messages| ==> v.messages[i].conversationId == v.activeChat.value
  }

  /**
    Opening a conversation with the history the messages endpoint returns
    shows that conversation's stored messages and nothing else, and the
    socket listener keeps it that way.
  */
  lemma HistoryShowsOnlyOpenChat(v: ChatView, db: Db, caller: Id, conversationId: Id, e: Relay.Event)
    ensures var r := ConversationControllers.GetMessages(db, caller, conversationId, NoFault);
            r.status == 200 ==>
              var shown := SelectConversation(v, conversationId, Some(r.body.value));
              && ShowsOnlyOpenChat(shown)
              && forall m :: m in db.messages && m.conversationId == conversationId ==> m in shown.messages
    ensures ShowsOnlyOpenChat(v) ==> ShowsOnlyOpenChat(OnServerEvent(v, e))
  {
  }

  /** The server's acknowledgement to the sender has no listener, so it never changes the sender's list. */
  lemma SenderAckIgnored(v: ChatView, m: Message)
    ensures OnServerEvent(v, Relay.ReceiverMessage(m)) == v
    ensures forall us :: OnServerEvent(v, Relay.ActiveUsers(us)) == v
  {
  }

  /**
    End to end: A sends the text in a conversation whose first other
    participant is B; B is set up on a socket and has that conversation open.
    When nothing throws, the relay stores the message, pushes it to B's socket,
    and B's list ends with it, carrying A's text untrimmed.
  */
  lemma SendReachesOpenConversation(
    a: ChatView, aId: Id, aSocket: Id, st: Relay.Server, b: ChatView, bId: Id, bSocket: Id,
    conv: Conversation, newId: Id, now: nat)
    requires !Text.AllSpace(a.newMessage)
    requires a.activeChat == Some(conv.id) && b.activeChat == Some(conv.id)
    requires Find(st.db.conversations, (c: Conversation) => c.id == conv.id) == Some(conv)
    requires FirstOther(conv.participants, aId) == Some(bId)
    requires Relay.Lookup(st.activeUsers, bId) == Some(bSocket) && bSocket != ""
    ensures HandleSendMessage(a, aId, true).1 == Some(Payload(conv.id, aId, a.newMessage))
    ensures var sent := Relay.SendMessage(st, aSocket, conv.id, aId, a.newMessage, newId, now, NoFault);
            var m := Schemas.NewMessage(newId, now, conv.id, aId, a.newMessage);
            && sent.0 == Relay.Delivered(bSocket, m)
            && sent.1.db.messages == st.db.messages + [m]
            && Relay.ToSocket(bSocket, Relay.ReceiveMessage(m)) in sent.1.outbox
            && OnServerEvent(b, Relay.ReceiveMessage(m)).messages == b.messages + [m]
            && m.body == a.newMessage
  {
    Relay.DeliversToOnlineReceiver(st, aSocket, conv, aId, bId, bSocket, a.newMessage, newId, now);
  }
}
