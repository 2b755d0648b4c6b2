/** Group messages: reading a group's messages and sending one. A send is
    an ordered chain of checks, then the message, the group's last message,
    one notification per other member and one push per other member. */
module GroupMessages {
  import opened Wrappers
  import opened Records
  import opened Seqs
  import Push

  datatype Error = EmptyMessage | GroupNotFound | NotMember | DuplicateKey

  /** `getAllUserGroupMessages`: the messages of the group, for members
      only. */
  function GroupMessagesOf(db: Db, caller: UserId, gid: GroupId): (r: Result<set<MsgId>, Error>)
    ensures r.Ok? <==> gid in db.groups && caller in db.groups[gid].members
    ensures r.Ok? ==> forall m :: m in r.value <==> m in db.groupMessages && db.groupMessages[m].groupId == gid
  {
    if gid !in db.groups then Err(GroupNotFound) else
    :- Need(caller in db.groups[gid].members, NotMember);
    Ok(set m | m in db.groupMessages && db.groupMessages[m].groupId == gid)
  }

  /** One notification per receiver, in order. */
  function MessageNotices(receivers: seq<UserId>, sender: UserId, gid: GroupId, now: int): (ns: seq<Notification>)
    ensures |ns| == |receivers|
    ensures forall i :: 0 <= i < |ns| ==> ns[i] == NewNotification(GroupMessageSent, sender, receivers[i], gid, now)
  {
    seq(|receivers|, i requires 0 <= i < |receivers| => NewNotification(GroupMessageSent, sender, receivers[i], gid, now))
  }

  /** The push receivers: the other members that are stored users, in
      member order, with their token, presence and the provider's answer
      for them. */
  function Receivers(members: seq<UserId>, sender: UserId, users: map<UserId, User>,
                     online: set<UserId>, reply: UserId -> Push.ProviderReply): (rs: seq<Push.Receiver>)
  {
    if members == [] then []
    else
      var rest := Receivers(members[1..], sender, users, online, reply);
      if members[0] != sender && members[0] in users
      then [Push.Receiver(members[0], users[members[0]].fcmToken, members[0] in online, reply(members[0]))] + rest
      else rest
  }

  /** The users after the push loop: every listed token is unset. */
  function UnsetTokens(users: map<UserId, User>, ids: seq<UserId>): (r: map<UserId, User>)
    ensures r.Keys == users.Keys
  {
    map u | u in users :: if u in ids then users[u].(fcmToken := "") else users[u]
  }

  /** `sendGroupMessage`, with every receiver pushed to: the message is
      stored with absent text or image as null and no readers, becomes the
      group's last message, every other member gets one notification about
      the group, and every dead token among the receivers is unset. */
  function Send(db: Db, sender: UserId, gid: GroupId, text: string, image: string, msgId: MsgId,
                now: int, online: set<UserId>, reply: UserId -> Push.ProviderReply): (r: Result<Db, Error>)
  {
    if text == "" && image == "" then Err(EmptyMessage) else
    :- Need(gid in db.groups, GroupNotFound);
    var g := db.groups[gid];
    :- Need(sender in g.members, NotMember);
    :- Need(msgId !in db.groupMessages, DuplicateKey);
    var others := Without(g.members, sender);
    var fanout := Push.GroupPushAll(sender in db.users, Receivers(g.members, sender, db.users, online, reply));
    Ok(db.(groupMessages := db.groupMessages[msgId := GroupMessage(sender, OrNull(text), OrNull(image), gid, {})],
           groups := db.groups[gid := g.(lastMessage := Some(msgId))],
           notifications := db.notifications + MessageNotices(others, sender, gid, now),
           users := UnsetTokens(db.users, fanout.unset)))
  }

  /** The checks run in the handler's order: an empty message is refused
      before the group is looked at, and a missing group before membership. */
  lemma SendAcceptsExactly(db: Db, sender: UserId, gid: GroupId, text: string, image: string,
                           msgId: MsgId, now: int, online: set<UserId>, reply: UserId -> Push.ProviderReply)
    ensures var r := Send(db, sender, gid, text, image, msgId, now, online, reply);
            && (r.Ok? <==> (text != "" || image != "") && gid in db.groups
                           && sender in db.groups[gid].members && msgId !in db.groupMessages)
            && (text == "" && image == "" ==> r == Err(EmptyMessage))
            && ((text != "" || image != "") && gid !in db.groups ==> r == Err(GroupNotFound))
  {
  }

  /** A sent message is stored from the sender to the group with nobody
      having read it, becomes the group's last message, and each member
      other than the sender gets exactly one notification, in member order;
      groups stay otherwise as they were. */
  lemma SendEffects(db: Db, sender: UserId, gid: GroupId, text: string, image: string, msgId: MsgId,
                    now: int, online: set<UserId>, reply: UserId -> Push.ProviderReply)
    ensures var r := Send(db, sender, gid, text, image, msgId, now, online, reply);
            r.Ok? ==>
              var db' := r.value;
              var others := Without(db.groups[gid].members, sender);
              && db'.groupMessages.Keys == db.groupMessages.Keys + {msgId}
              && var m := db'.groupMessages[msgId];
              && m.sender == sender && m.groupId == gid && m.readBy == {}
              && (m.text.Some? <==> text != "") && (m.image.Some? <==> image != "")
              && db'.groups == db.groups[gid := db.groups[gid].(lastMessage := Some(msgId))]
              && |db'.notifications| == |db.notifications| + |others|
              && db'.notifications[..|db.notifications|] == db.notifications
              && (forall i :: 0 <= i < |others| ==>
                    var n := db'.notifications[|db.notifications| + i];
                    n.receiver == others[i] && n.sender == sender && n.kind == GroupMessageSent
                    && n.relatedId == gid && !n.isRead)
              && (forall u :: u in others <==> u in db.groups[gid].members && u != sender)
              && db' == db.(groupMessages := db'.groupMessages, groups := db'.groups,
                            notifications := db'.notifications, users := db'.users)
  {
  }

  /** Only dead tokens of other members are unset, and all of them are when
      the sender is a stored user: a stored member other than the sender
      whose token the provider rejects has it unset, every other user keeps
      their token. */
  lemma SendUnsetsEveryDeadToken(db: Db, sender: UserId, gid: GroupId, text: string, image: string,
                                 msgId: MsgId, now: int, online: set<UserId>,
                                 reply: UserId -> Push.ProviderReply)
    ensures var r := Send(db, sender, gid, text, image, msgId, now, online, reply);
            r.Ok? ==>
              && r.value.users.Keys == db.users.Keys
              && forall u :: u in db.users ==>
                   r.value.users[u] == (
                     if sender in db.users && u in db.groups[gid].members && u != sender
                        && db.users[u].fcmToken != "" && reply(u) == Push.TokenNotRegistered
                     then db.users[u].(fcmToken := "") else db.users[u])
  {
    var r := Send(db, sender, gid, text, image, msgId, now, online, reply);
    if r.Ok? {
      var g := db.groups[gid];
      var rs := Receivers(g.members, sender, db.users, online, reply);
      if sender in db.users {
        DeadTokensAre(g.members, sender, db.users, online, reply);
      }
    }
  }

  /** The dead tokens among the receivers are exactly those of the other
      stored members whose token the provider rejects. */
  lemma {:induction false} DeadTokensAre(members: seq<UserId>, sender: UserId, users: map<UserId, User>,
                                         online: set<UserId>, reply: UserId -> Push.ProviderReply)
    ensures forall u :: u in Push.DeadTokens(Receivers(members, sender, users, online, reply)) <==>
              u in members && u != sender && u in users && users[u].fcmToken != ""
              && reply(u) == Push.TokenNotRegistered
  {
    if members != [] {
      DeadTokensAre(members[1..], sender, users, online, reply);
      var rest := Receivers(members[1..], sender, users, online, reply);
      if members[0] != sender && members[0] in users {
        var r := Push.Receiver(members[0], users[members[0]].fcmToken, members[0] in online, reply(members[0]));
        assert Receivers(members, sender, users, online, reply) == [r] + rest;
        assert ([r] + rest)[1..] == rest;
      }
      assert forall u :: u in members <==> u == members[0] || u in members[1..];
    }
  }
}
