/** Friend requests: the listing filter, accepting (which befriends the
    two users and opens their direct chat) and rejecting. */
module FriendRequests {
  import opened Wrappers
  import opened Records
  import Push

  datatype Error = RequestIdRequired | RequestNotFound | NotAllowed | DuplicateKey

  /** `getAllFriendRequests`: by side (`type`) and optionally by exact
      status. */
  function List(db: Db, caller: UserId, kind: string, status: string): (ids: set<RecordId>)
    ensures ids <= db.friendRequests.Keys
  {
    set id | id in db.friendRequests
             && OnSide(kind, caller, db.friendRequests[id].sender, db.friendRequests[id].receiver)
             && StatusSelected(status, db.friendRequests[id].status)
  }

  /** Any `type` other than "sent" and "received" lists both sides; the
      status filter narrows each listing to one exact status, "old"
      included although the schema does not list it, and a status no
      request can have lists nothing. */
  lemma ListSides(db: Db, caller: UserId, other: string, status: string)
    requires other != "sent" && other != "received"
    ensures List(db, caller, other, status) == List(db, caller, "sent", status) + List(db, caller, "received", status)
    ensures forall id :: id in List(db, caller, "sent", status) ==> db.friendRequests[id].sender == caller
    ensures forall id :: id in List(db, caller, "received", status) ==> db.friendRequests[id].receiver == caller
    ensures List(db, caller, other, "") ==
              List(db, caller, other, "pending") + List(db, caller, other, "accepted")
              + List(db, caller, other, "rejected") + List(db, caller, other, "old")
    ensures status !in {"", "pending", "accepted", "rejected", "old"} ==> List(db, caller, other, status) == {}
  {
  }

  /** Whether a request runs between `a` and `b`, in either direction. */
  predicate Between(r: FriendRequest, a: UserId, b: UserId) {
    (r.sender == a && r.receiver == b) || (r.sender == b && r.receiver == a)
  }

  /** The status updates of an accept: the request becomes accepted, and
      every other pending request between the same two users becomes old. */
  function SettleRequests(reqs: map<RecordId, FriendRequest>, reqId: RecordId): (r: map<RecordId, FriendRequest>)
    requires reqId in reqs
    ensures r.Keys == reqs.Keys
  {
    var fr := reqs[reqId];
    map id | id in reqs ::
      if id == reqId then reqs[id].(status := Accepted)
      else if reqs[id].status == Pending && Between(reqs[id], fr.sender, fr.receiver) then reqs[id].(status := Old)
      else reqs[id]
  }

  /** `acceptFriendRequest`: only the receiver may accept, whatever the
      request's status. The two users become friends (user1 the sender,
      user2 the receiver) and get a direct chat in the same order; the
      sender is notified and pushed to. */
  function Accept(db: Db, caller: UserId, reqId: RecordId, friendshipId: RecordId, chatId: ChatId,
                  now: int, online: set<UserId>, reply: Push.ProviderReply): (r: Result<Db, Error>)
  {
    if reqId == "" then Err(RequestIdRequired) else
    :- Need(reqId in db.friendRequests, RequestNotFound);
    var fr := db.friendRequests[reqId];
    :- Need(fr.receiver == caller, NotAllowed);
    :- Need(friendshipId !in db.friendships && chatId !in db.directChats, DuplicateKey);
    Ok(db.(friendRequests := SettleRequests(db.friendRequests, reqId),
           friendships := db.friendships[friendshipId := Friendship(fr.sender, fr.receiver)],
           directChats := db.directChats[chatId := DirectChat(fr.sender, fr.receiver, None)],
           notifications := db.notifications
             + [NewNotification(FriendRequestAccepted, fr.receiver, fr.sender, reqId, now)],
           users := Push.PushTo(db.users, caller, fr.sender, online, reply)))
  }

  /** Accepting succeeds exactly for the receiver of a stored request (with
      fresh ids). Afterwards the request is accepted, no other request
      between the two users is still pending, requests between other users
      are untouched, one friendship and one chat with the sender first
      exist, and the sender has one new notification. */
  lemma AcceptSpec(db: Db, caller: UserId, reqId: RecordId, friendshipId: RecordId, chatId: ChatId,
                   now: int, online: set<UserId>, reply: Push.ProviderReply)
    ensures var r := Accept(db, caller, reqId, friendshipId, chatId, now, online, reply);
            && (r.Ok? <==> reqId != "" && reqId in db.friendRequests && db.friendRequests[reqId].receiver == caller
                           && friendshipId !in db.friendships && chatId !in db.directChats)
            && (r.Ok? ==>
                  var fr := db.friendRequests[reqId];
                  var reqs := r.value.friendRequests;
                  && reqs.Keys == db.friendRequests.Keys
                  && reqs[reqId] == fr.(status := Accepted)
                  && (forall id :: id in reqs && Between(reqs[id], fr.sender, fr.receiver) ==>
                        reqs[id].status != Pending)
                  && (forall id :: id in reqs ==>
                        reqs[id].sender == db.friendRequests[id].sender
                        && reqs[id].receiver == db.friendRequests[id].receiver)
                  && (forall id :: id in reqs && id != reqId && !Between(db.friendRequests[id], fr.sender, fr.receiver) ==>
                        reqs[id] == db.friendRequests[id])
                  && (forall id :: id in reqs && id != reqId && db.friendRequests[id].status != Pending ==>
                        reqs[id] == db.friendRequests[id])
                  && r.value.friendships == db.friendships[friendshipId := Friendship(fr.sender, caller)]
                  && r.value.directChats == db.directChats[chatId := DirectChat(fr.sender, caller, None)]
                  && |r.value.notifications| == |db.notifications| + 1
                  && r.value.notifications[|db.notifications|].receiver == fr.sender
                  && r.value.notifications[|db.notifications|].kind == FriendRequestAccepted
                  && r.value == db.(friendRequests := reqs, friendships := r.value.friendships,
                                    directChats := r.value.directChats,
                                    notifications := r.value.notifications, users := r.value.users))
  {
  }

  /** Accept does not look at the status: an already accepted request can
      be accepted again, which adds a second friendship and a second chat
      between the same two users. */
  lemma AcceptTwiceBefriendsTwice(db: Db, caller: UserId, reqId: RecordId, f1: RecordId, c1: ChatId,
                                  f2: RecordId, c2: ChatId, now: int, online: set<UserId>,
                                  reply: Push.ProviderReply)
    requires reqId != "" && reqId in db.friendRequests && db.friendRequests[reqId].receiver == caller
    requires f1 !in db.friendships && c1 !in db.directChats && f1 != f2 && c1 != c2
    requires f2 !in db.friendships && c2 !in db.directChats
    ensures var once := Accept(db, caller, reqId, f1, c1, now, online, reply);
            && once.Ok?
            && var twice := Accept(once.value, caller, reqId, f2, c2, now, online, reply);
            && twice.Ok?
            && twice.value.friendRequests[reqId].status == Accepted
            && twice.value.friendships[f1] == twice.value.friendships[f2]
            && twice.value.directChats[c1] == twice.value.directChats[c2]
  {
    var once := Accept(db, caller, reqId, f1, c1, now, online, reply);
    assert once.value.friendRequests[reqId].receiver == caller;
  }

  /** `rejectFriendRequest`: only the receiver may reject, whatever the
      request's status. */
  function Reject(db: Db, caller: UserId, reqId: RecordId): (r: Result<Db, Error>)
  {
    if reqId == "" then Err(RequestIdRequired) else
    :- Need(reqId in db.friendRequests, RequestNotFound);
    :- Need(db.friendRequests[reqId].receiver == caller, NotAllowed);
    Ok(db.(friendRequests := db.friendRequests[reqId := db.friendRequests[reqId].(status := Rejected)]))
  }

  /** Rejecting succeeds exactly for the receiver of a stored request and
      changes that request's status to rejected and nothing else. */
  lemma RejectSpec(db: Db, caller: UserId, reqId: RecordId)
    ensures var r := Reject(db, caller, reqId);
            && (r.Ok? <==> reqId != "" && reqId in db.friendRequests && db.friendRequests[reqId].receiver == caller)
            && (r.Ok? ==>
                  && r.value.friendRequests.Keys == db.friendRequests.Keys
                  && r.value.friendRequests[reqId].status == Rejected
                  && r.value.friendRequests[reqId].sender == db.friendRequests[reqId].sender
                  && (forall id :: id in db.friendRequests && id != reqId ==>
                        r.value.friendRequests[id] == db.friendRequests[id])
                  && r.value == db.(friendRequests := r.value.friendRequests))
  {
  }
}
