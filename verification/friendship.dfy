/** Friendships: listing a user's friendships and the unfriend cascade,
    which removes the pair's direct chat with its messages and images. */
module Friendships {
  import opened Wrappers
  import opened Records

  datatype Error = FriendshipNotFound | NotFriends | ChatNotFound

  /** `getAllUserFriends`: the friendships with the caller on either side. */
  function Friends(db: Db, caller: UserId): (ids: set<RecordId>)
    ensures forall id :: id in ids <==>
              (id in db.friendships
               && (db.friendships[id].user1 == caller || db.friendships[id].user2 == caller))
  {
    set id | id in db.friendships && (db.friendships[id].user1 == caller || db.friendships[id].user2 == caller)
  }

  /** A chat between `u1` and `u2` in exactly that order. */
  predicate ChatOf(chats: map<ChatId, DirectChat>, id: ChatId, u1: UserId, u2: UserId) {
    id in chats && chats[id].user1 == u1 && chats[id].user2 == u2
  }

  /** What `findOne({user1, user2})` may answer: one of the matching chats
      when there is one, nothing otherwise. */
  predicate FindOneAnswer(chats: map<ChatId, DirectChat>, u1: UserId, u2: UserId, found: Option<ChatId>) {
    && (found.Some? ==> ChatOf(chats, found.value, u1, u2))
    && (found.None? ==> forall id :: id in chats ==> !(chats[id].user1 == u1 && chats[id].user2 == u2))
  }

  /** What the client is told: the removed chat and the other user. */
  datatype Unfriended = Unfriended(db: Db, chat: ChatId, friend: UserId)

  /** `unfriend`. `found` is the store's answer to the chat lookup for the
      friendship's pair, taken in the friendship's (user1, user2) order. */
  function Unfriend(db: Db, caller: UserId, fid: RecordId, found: Option<ChatId>): (r: Result<Unfriended, Error>)
  {
    if fid !in db.friendships then Err(FriendshipNotFound) else
    var f := db.friendships[fid];
    :- Need(f.user1 == caller || f.user2 == caller, NotFriends);
    :- Need(found.Some? && ChatOf(db.directChats, found.value, f.user1, f.user2), ChatNotFound);
    var chat := found.value;
    var c := db.directChats[chat];
    var friend := if c.user1 == caller then c.user2 else c.user1;
    Ok(Unfriended(
      db.(directMessages := map m | m in db.directMessages && db.directMessages[m].chatId != chat :: db.directMessages[m],
          directChats := db.directChats - {chat},
          friendships := db.friendships - {fid},
          cloud := db.cloud + [DeleteFolder("direct_message_images/" + chat)]),
      chat, friend))
  }

  /** With a faithful lookup answer: unfriending is refused for a missing
      friendship, an outsider, or a pair without a chat in the friendship's
      order. Otherwise exactly the friendship, the chat and the chat's
      messages are gone, the chat's image folder is removed, the friend is
      the other member of the pair, and nothing else changes. */
  lemma UnfriendSpec(db: Db, caller: UserId, fid: RecordId, found: Option<ChatId>)
    requires fid in db.friendships ==>
               FindOneAnswer(db.directChats, db.friendships[fid].user1, db.friendships[fid].user2, found)
    ensures var r := Unfriend(db, caller, fid, found);
            && (r.Ok? <==> fid in db.friendships
                           && (db.friendships[fid].user1 == caller || db.friendships[fid].user2 == caller)
                           && exists id :: ChatOf(db.directChats, id, db.friendships[fid].user1,
                                                  db.friendships[fid].user2))
            && (r.Ok? ==>
                  var f := db.friendships[fid];
                  var db' := r.value.db;
                  && ChatOf(db.directChats, r.value.chat, f.user1, f.user2)
                  && db'.friendships == db.friendships - {fid}
                  && db'.directChats == db.directChats - {r.value.chat}
                  && (forall m :: m in db'.directMessages <==>
                        m in db.directMessages && db.directMessages[m].chatId != r.value.chat)
                  && (forall m :: m in db'.directMessages ==> db'.directMessages[m] == db.directMessages[m])
                  && {caller, r.value.friend} == {f.user1, f.user2}
                  && (f.user1 != f.user2 ==> r.value.friend != caller)
                  && db'.cloud == db.cloud + [DeleteFolder("direct_message_images/" + r.value.chat)]
                  && db' == db.(directMessages := db'.directMessages, directChats := db'.directChats,
                                friendships := db'.friendships, cloud := db'.cloud))
  {
    var r := Unfriend(db, caller, fid, found);
    if fid in db.friendships && (db.friendships[fid].user1 == caller || db.friendships[fid].user2 == caller) {
      var f := db.friendships[fid];
      if exists id :: ChatOf(db.directChats, id, f.user1, f.user2) {
        var id :| ChatOf(db.directChats, id, f.user1, f.user2);
        assert found.Some?;
      }
    }
  }

  /** A chat opened the other way round is not found: with the friendship
      as (a, b) and only a chat (b, a), unfriending is refused and nothing
      is removed. */
  lemma ReversedChatIsNotFound(db: Db, caller: UserId, fid: RecordId, a: UserId, b: UserId, chat: ChatId)
    requires a != b && caller == a
    requires db.friendships == map[fid := Friendship(a, b)]
    requires db.directChats == map[chat := DirectChat(b, a, None)]
    ensures FindOneAnswer(db.directChats, a, b, None)
    ensures Unfriend(db, caller, fid, None) == Err(ChatNotFound)
  {
  }
}
