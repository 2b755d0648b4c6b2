/** The maintenance endpoint that wipes the social state: notifications,
    friend requests, group invitations, friendships and direct chats. */
module Reset {
  import opened Wrappers
  import opened Records
  import Friendships
  import FriendRequests
  import GroupInvitations
  import DirectMessages

  /** `resetData`: five collections emptied; accounts, groups, messages,
      reports, locations and sport types are kept. Direct messages are not
      in the list, so they outlive their chats. */
  function ResetData(db: Db): (r: Db)
  {
    db.(notifications := [], friendRequests := map[], invitations := map[],
        friendships := map[], directChats := map[])
  }

  /** After a reset nobody has a friend, a friend request, an invitation or
      a notification, and every direct chat is gone; the remaining
      collections are as before. */
  lemma ResetDataSpec(db: Db, u: UserId, kind: string, status: string, chat: ChatId)
    ensures var r := ResetData(db);
            && Friendships.Friends(r, u) == {}
            && FriendRequests.List(r, u, kind, status) == {}
            && GroupInvitations.List(r, u, kind, status) == {}
            && r.notifications == []
            && DirectMessages.ChatMessages(r, u, chat) == Err(DirectMessages.ChatNotFound)
            && r.users == db.users && r.groups == db.groups && r.groupMessages == db.groupMessages
            && r.directMessages == db.directMessages && r.reports == db.reports
            && r.locations == db.locations && r.sportTypes == db.sportTypes && r.cloud == db.cloud
  {
  }

  /** Resetting twice is resetting once. */
  lemma ResetDataIdempotent(db: Db)
    ensures ResetData(ResetData(db)) == ResetData(db)
  {
  }

  /** Direct messages survive the reset with no chat left to read them
      through: a message that existed before is still stored, yet no user
      can list it. */
  lemma ResetOrphansMessages(db: Db, m: MsgId, u: UserId)
    requires m in db.directMessages
    ensures var r := ResetData(db);
            && m in r.directMessages
            && DirectMessages.ChatMessages(r, u, r.directMessages[m].chatId).Err?
  {
  }
}
