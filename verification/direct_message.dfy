/** Direct messages: reading a chat's messages and sending one. A send is
    an ordered chain of checks, then the message, the chat's last message,
    one notification for the receiver and one push attempt. */
module DirectMessages {
  import opened Wrappers
  import opened Records
  import Push

  datatype Error =
    | ChatNotFound
    | NotInChat
    | IdsRequired
    | SendToSelf
    | TextOrImageRequired
    | UsersNotInChat
    | DuplicateKey

  /** `getAllUserDirectMessages`: the messages of the chat, for one of its
      two users only. */
  function ChatMessages(db: Db, caller: UserId, chat: ChatId): (r: Result<set<MsgId>, Error>)
    ensures r.Ok? <==> chat in db.directChats
                       && (db.directChats[chat].user1 == caller || db.directChats[chat].user2 == caller)
    ensures r.Ok? ==> forall m :: m in r.value <==> m in db.directMessages && db.directMessages[m].chatId == chat
  {
    if chat !in db.directChats then Err(ChatNotFound) else
    var c := db.directChats[chat];
    :- Need(c.user1 == caller || c.user2 == caller, NotInChat);
    Ok(set m | m in db.directMessages && db.directMessages[m].chatId == chat)
  }

  /** The checks of `sendDirectMessage`, in the handler's order. */
  function SendChecks(db: Db, sender: UserId, receiver: UserId, chat: ChatId,
                      text: string, image: string): (o: Outcome<Error>)
  {
    if sender == "" || receiver == "" then Fail(IdsRequired)
    else if sender == receiver then Fail(SendToSelf)
    else if text == "" && image == "" then Fail(TextOrImageRequired)
    else if chat !in db.directChats then Fail(ChatNotFound)
    else if !(sender in [db.directChats[chat].user1, db.directChats[chat].user2]
              && receiver in [db.directChats[chat].user1, db.directChats[chat].user2]) then Fail(UsersNotInChat)
    else Pass
  }

  /** `sendDirectMessage`: the message is stored with absent text or image
      as null, becomes the chat's last message, the receiver gets one
      notification about the chat, and the push to the receiver follows the
      single-receiver pattern. */
  function Send(db: Db, sender: UserId, receiver: UserId, chat: ChatId, text: string, image: string,
                msgId: MsgId, now: int, online: set<UserId>, reply: Push.ProviderReply): (r: Result<Db, Error>)
  {
    var checks := SendChecks(db, sender, receiver, chat, text, image);
    :- checks;
    :- Need(msgId !in db.directMessages, DuplicateKey);
    var m := DirectMessage(sender, receiver, OrNull(text), OrNull(image), chat, false);
    Ok(db.(directMessages := db.directMessages[msgId := m],
           directChats := db.directChats[chat := db.directChats[chat].(lastMessage := Some(msgId))],
           notifications := db.notifications + [NewNotification(DirectMessageSent, sender, receiver, chat, now)],
           users := Push.PushTo(db.users, sender, receiver, online, reply)))
  }

  /** The checks fail in the handler's order: the first failing one names
      the error. */
  lemma SendChecksOrder(db: Db, sender: UserId, receiver: UserId, chat: ChatId, text: string, image: string)
    ensures var o := SendChecks(db, sender, receiver, chat, text, image);
            && (sender == "" || receiver == "" ==> o == Fail(IdsRequired))
            && (sender != "" && receiver != "" && sender == receiver ==> o == Fail(SendToSelf))
            && (sender != "" && receiver != "" && sender != receiver && text == "" && image == ""
                ==> o == Fail(TextOrImageRequired))
            && ((sender != "" && receiver != "" && sender != receiver && (text != "" || image != "")
                 && chat !in db.directChats) ==> o == Fail(ChatNotFound))
  {
  }

  /** Because a self-send is refused first, a successful send goes between
      the chat's two users, one on each side. */
  lemma SendIsBetweenTheChatPair(db: Db, sender: UserId, receiver: UserId, chat: ChatId, text: string,
                                 image: string, msgId: MsgId, now: int, online: set<UserId>,
                                 reply: Push.ProviderReply)
    ensures Send(db, sender, receiver, chat, text, image, msgId, now, online, reply).Ok? ==>
              var c := db.directChats[chat];
              c.user1 != c.user2
              && ((sender == c.user1 && receiver == c.user2) || (sender == c.user2 && receiver == c.user1))
  {
  }

  /** A sent message is stored unread with text and image as given (null
      when empty), is the chat's last message, and is announced by exactly
      one new notification, to the receiver about the chat; only the
      receiver's push token can change among the users, and nothing else in
      the store changes. */
  lemma SendEffects(db: Db, sender: UserId, receiver: UserId, chat: ChatId, text: string, image: string,
                    msgId: MsgId, now: int, online: set<UserId>, reply: Push.ProviderReply)
    ensures var r := Send(db, sender, receiver, chat, text, image, msgId, now, online, reply);
            r.Ok? ==>
              var db' := r.value;
              && msgId !in db.directMessages
              && db'.directMessages.Keys == db.directMessages.Keys + {msgId}
              && var m := db'.directMessages[msgId];
              && m.sender == sender && m.receiver == receiver && m.chatId == chat && !m.isRead
              && (m.text.Some? <==> text != "") && (m.text.Some? ==> m.text.value == text)
              && (m.image.Some? <==> image != "") && (m.image.Some? ==> m.image.value == image)
              && db'.directChats.Keys == db.directChats.Keys
              && db'.directChats[chat] == db.directChats[chat].(lastMessage := Some(msgId))
              && (forall c :: c in db.directChats && c != chat ==> db'.directChats[c] == db.directChats[c])
              && |db'.notifications| == |db.notifications| + 1
              && db'.notifications[..|db.notifications|] == db.notifications
              && var n := db'.notifications[|db.notifications|];
              && n.kind == DirectMessageSent && n.sender == sender && n.receiver == receiver
              && n.relatedId == chat && !n.isRead
              && db'.users.Keys == db.users.Keys
              && (forall u :: u in db.users && u != receiver ==> db'.users[u] == db.users[u])
              && db' == db.(directMessages := db'.directMessages, directChats := db'.directChats,
                            notifications := db'.notifications, users := db'.users)
  {
  }

  /** The send succeeds exactly when every check passes and the message id
      is fresh. */
  lemma SendAcceptsExactly(db: Db, sender: UserId, receiver: UserId, chat: ChatId, text: string,
                           image: string, msgId: MsgId, now: int, online: set<UserId>,
                           reply: Push.ProviderReply)
    ensures Send(db, sender, receiver, chat, text, image, msgId, now, online, reply).Ok? <==>
              && sender != "" && receiver != "" && sender != receiver
              && (text != "" || image != "")
              && chat in db.directChats
              && {sender, receiver} == {db.directChats[chat].user1, db.directChats[chat].user2}
              && msgId !in db.directMessages
  {
    if chat in db.directChats && sender != receiver {
      var c := db.directChats[chat];
      if {sender, receiver} == {c.user1, c.user2} {
        assert sender in {c.user1, c.user2} && receiver in {c.user1, c.user2};
      }
      if sender in [c.user1, c.user2] && receiver in [c.user1, c.user2] {
        assert {sender, receiver} == {c.user1, c.user2};
      }
    }
  }
}
