/** Push notifications through Firebase Cloud Messaging, as the handlers
    send them after their database work. The provider's answer is an input:
    it delivers, rejects the token as no longer registered, or fails for
    another reason. A user who is online (has a registered socket) gets a
    silent data message, one who is offline a displayed notification. */
module Push {
  import opened Wrappers
  import opened Records

  datatype ProviderReply = Delivered | TokenNotRegistered | OtherFailure

  datatype PushKind = DataMessage | DisplayNotification

  /** What one push attempt did: which kind of message was handed to the
      provider, if any, and whether the receiver's token was then unset. */
  datatype Attempt = Attempt(sent: Option<PushKind>, tokenUnset: bool)

  /** The single-receiver pattern: push only when the sender and the
      receiver were found and the receiver has a token; a
      `registration-token-not-registered` answer unsets the token; any other
      failure is swallowed. The handler answers success in every case. */
  function Decide(found: bool, token: string, online: bool, reply: ProviderReply): (a: Attempt)
    ensures a.sent.Some? <==> found && token != ""
    ensures a.sent == Some(DataMessage) <==> found && token != "" && online
    ensures a.tokenUnset <==> a.sent.Some? && reply == TokenNotRegistered
  {
    if !(found && token != "") then Attempt(None, false)
    else Attempt(Some(if online then DataMessage else DisplayNotification),
                 reply == TokenNotRegistered)
  }

  /** The token stored after the attempt. */
  function TokenAfter(token: string, a: Attempt): (t: string)
    ensures a.tokenUnset ==> t == ""
    ensures !a.tokenUnset ==> t == token
  {
    if a.tokenUnset then "" else token
  }

  /** The single-receiver pattern run against the user store: `from`
      pushes to `to`, who is online when in `online`. Only the receiver's
      token can change, and only to unset on a not-registered answer. */
  function PushTo(users: map<UserId, User>, from: UserId, to: UserId, online: set<UserId>,
                  reply: ProviderReply): (r: map<UserId, User>)
    ensures r.Keys == users.Keys
    ensures forall u :: u in users && u != to ==> r[u] == users[u]
    ensures to in users ==>
              r[to] == users[to]
              || (r[to] == users[to].(fcmToken := "") && from in users
                  && users[to].fcmToken != "" && reply == TokenNotRegistered)
  {
    if to in users then
      var a := Decide(from in users, users[to].fcmToken, to in online, reply);
      users[to := users[to].(fcmToken := TokenAfter(users[to].fcmToken, a))]
    else users
  }

  /** A dead token is removed by the first push that discovers it, and no
      later push is attempted with it. */
  lemma DeadTokenIsForgotten(found: bool, token: string, online: bool, online2: bool,
                             reply2: ProviderReply)
    requires found && token != ""
    ensures var after := TokenAfter(token, Decide(found, token, online, TokenNotRegistered));
            after == "" && Decide(found, after, online2, reply2).sent.None?
  {
  }

  // ---------------------------------------------------------------------
  // Group messages: one push per receiver
  // ---------------------------------------------------------------------

  /** A receiver of a group push: the member's id, token, presence and the
      answer the provider would give for that token. */
  datatype Receiver = Receiver(id: UserId, token: string, online: bool, reply: ProviderReply)

  /** The outcome of a group push loop: the receivers a message was handed
      to, in order, and the receivers whose token was unset. */
  datatype Fanout = Fanout(pushedTo: seq<UserId>, unset: seq<UserId>)

  /** Receivers that hold a token, in order. */
  function WithToken(rs: seq<Receiver>): (ids: seq<UserId>)
    ensures |ids| <= |rs|
  {
    if rs == [] then []
    else (if rs[0].token != "" then [rs[0].id] else []) + WithToken(rs[1..])
  }

  /** Receivers whose token the provider rejects as not registered. */
  function DeadTokens(rs: seq<Receiver>): (ids: seq<UserId>)
  {
    if rs == [] then []
    else (if rs[0].token != "" && rs[0].reply == TokenNotRegistered then [rs[0].id] else [])
         + DeadTokens(rs[1..])
  }

  /** The loop in `sendGroupMessage` as written: the first
      not-registered answer unsets that token and returns from the handler,
      so the receivers after it get no push. */
  function GroupPushAsWritten(senderFound: bool, rs: seq<Receiver>): (f: Fanout)
  {
    if !senderFound || rs == [] then Fanout([], [])
    else if rs[0].token == "" then GroupPushAsWritten(senderFound, rs[1..])
    else if rs[0].reply == TokenNotRegistered then Fanout([rs[0].id], [rs[0].id])
    else
      var rest := GroupPushAsWritten(senderFound, rs[1..]);
      Fanout([rs[0].id] + rest.pushedTo, rest.unset)
  }

  /** The loop as intended: every receiver with a token gets its push, and
      every dead token is unset. */
  function GroupPushAll(senderFound: bool, rs: seq<Receiver>): (f: Fanout)
    ensures !senderFound ==> f == Fanout([], [])
    ensures senderFound ==> f.pushedTo == WithToken(rs) && f.unset == DeadTokens(rs)
  {
    if !senderFound || rs == [] then Fanout([], [])
    else
      var rest := GroupPushAll(senderFound, rs[1..]);
      var a := Decide(true, rs[0].token, rs[0].online, rs[0].reply);
      Fanout((if a.sent.Some? then [rs[0].id] else []) + rest.pushedTo,
             (if a.tokenUnset then [rs[0].id] else []) + rest.unset)
  }

  /** As written, the loop reaches a prefix of the intended receivers and
      unsets at most one token; when no token is dead it does everything
      the intended loop does. */
  lemma {:induction false} AsWrittenIsPrefix(senderFound: bool, rs: seq<Receiver>)
    ensures var w := GroupPushAsWritten(senderFound, rs);
            var c := GroupPushAll(senderFound, rs);
            && |w.pushedTo| <= |c.pushedTo| && w.pushedTo == c.pushedTo[..|w.pushedTo|]
            && |w.unset| <= 1
            && (c.unset == [] ==> w == c)
  {
    AsWrittenReachesPrefix(senderFound, rs);
    AsWrittenMatchesWithoutDeadTokens(senderFound, rs);
  }

  lemma {:induction false} AsWrittenReachesPrefix(senderFound: bool, rs: seq<Receiver>)
    ensures var w := GroupPushAsWritten(senderFound, rs);
            var c := GroupPushAll(senderFound, rs);
            && |w.pushedTo| <= |c.pushedTo| && w.pushedTo == c.pushedTo[..|w.pushedTo|]
            && |w.unset| <= 1
  {
    if senderFound && rs != [] {
      AsWrittenReachesPrefix(senderFound, rs[1..]);
      var w := GroupPushAsWritten(senderFound, rs[1..]);
      var c := GroupPushAll(senderFound, rs[1..]);
      if rs[0].token != "" && rs[0].reply != TokenNotRegistered {
        assert GroupPushAll(senderFound, rs).pushedTo == [rs[0].id] + c.pushedTo;
        assert GroupPushAsWritten(senderFound, rs).pushedTo == [rs[0].id] + w.pushedTo;
      }
    }
  }

  lemma {:induction false} AsWrittenMatchesWithoutDeadTokens(senderFound: bool, rs: seq<Receiver>)
    ensures GroupPushAll(senderFound, rs).unset == [] ==>
              GroupPushAsWritten(senderFound, rs) == GroupPushAll(senderFound, rs)
  {
    if senderFound && rs != [] && GroupPushAll(senderFound, rs).unset == [] {
      var rest := GroupPushAll(senderFound, rs[1..]);
      assert rest.unset == [] && (rs[0].token == "" || rs[0].reply != TokenNotRegistered);
      AsWrittenMatchesWithoutDeadTokens(senderFound, rs[1..]);
    }
  }

  /** The as-written loop skips a live receiver: the first receiver's token
      is dead, the second's is live, and only the first is pushed to. */
  lemma AsWrittenSkipsLaterReceivers()
    ensures var rs := [Receiver("a", "dead", false, TokenNotRegistered),
                       Receiver("b", "live", false, Delivered)];
            && GroupPushAsWritten(true, rs).pushedTo == ["a"]
            && GroupPushAll(true, rs).pushedTo == ["a", "b"]
  {
    var rs := [Receiver("a", "dead", false, TokenNotRegistered),
               Receiver("b", "live", false, Delivered)];
    assert rs[1..] == [Receiver("b", "live", false, Delivered)];
    assert rs[1..][1..] == [];
  }

  // ---------------------------------------------------------------------
  // Friend requests: the push in `addFriend`
  // ---------------------------------------------------------------------

  /** Whether the push in `addFriend` throws, which makes the handler answer
      500 after the request and its notification already exist. It checks
      neither that the receiver has a token (a message without a target is
      rejected by the provider) nor catches any failure. */
  function AddFriendPushThrows(token: string, reply: ProviderReply): (throws: bool)
  {
    token == "" || reply != Delivered
  }

  /** A receiver without a token, or with a dead one, makes `addFriend`
      throw; the single-receiver pattern never does. */
  lemma AddFriendPushThrowsOnMissingOrDeadToken()
    ensures forall reply :: AddFriendPushThrows("", reply)
    ensures forall token :: token != "" ==> AddFriendPushThrows(token, TokenNotRegistered)
    ensures forall online, reply :: Decide(true, "", online, reply) == Attempt(None, false)
    ensures forall token, online :: token != "" ==>
              Decide(true, token, online, TokenNotRegistered).tokenUnset
              && TokenAfter(token, Decide(true, token, online, TokenNotRegistered)) == ""
  {
  }
}
