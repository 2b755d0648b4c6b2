/** The stored documents shared by several handlers, reduced to the fields
    the handlers read or write. Ids are opaque strings; the empty string
    stands for an absent (falsy) value wherever the source tests `!x`. */
module Records {
  import opened Wrappers

  type UserId = string
  type GroupId = string
  type MsgId = string
  type ChatId = string
  type RecordId = string

  /** Status of a friend request or a group invitation. The schemas list
      only the first three values, but the handlers also write `old`
      through update queries, which do not run schema validation. */
  datatype RequestStatus = Pending | Accepted | Rejected | Old

  /** The status string a listing query compares against. */
  function StatusName(s: RequestStatus): string {
    match s
    case Pending => "pending"
    case Accepted => "accepted"
    case Rejected => "rejected"
    case Old => "old"
  }

  /** The values the schemas of friend requests and group invitations
      accept (their `enum`). */
  predicate SchemaListsStatus(s: RequestStatus) {
    s != Old
  }

  datatype NotificationKind =
    | FriendRequestSent
    | FriendRequestAccepted
    | GroupInvitationSent
    | GroupInvitationAccepted
    | DirectMessageSent
    | GroupMessageSent
    | KickFromGroupChat
    | GroupChatDeletion

  datatype Notification = Notification(
    kind: NotificationKind,
    sender: UserId,
    receiver: UserId,
    relatedId: RecordId,
    isRead: bool,
    createdAt: int)

  /** A freshly created notification: unread, as the schema defaults it. */
  function NewNotification(kind: NotificationKind, sender: UserId, receiver: UserId,
                           relatedId: RecordId, now: int): (n: Notification)
    ensures !n.isRead && n.receiver == receiver && n.sender == sender && n.kind == kind
  {
    Notification(kind, sender, receiver, relatedId, false, now)
  }

  datatype FriendRequest = FriendRequest(sender: UserId, receiver: UserId, status: RequestStatus)

  datatype Invitation = Invitation(sender: UserId, receiver: UserId, groupChat: GroupId,
                                   status: RequestStatus)

  datatype Friendship = Friendship(user1: UserId, user2: UserId)

  datatype DirectChat = DirectChat(user1: UserId, user2: UserId, lastMessage: Option<MsgId>)

  datatype DirectMessage = DirectMessage(
    sender: UserId,
    receiver: UserId,
    text: Option<string>,
    image: Option<string>,
    chatId: ChatId,
    isRead: bool)

  datatype GroupMessage = GroupMessage(
    sender: UserId,
    text: Option<string>,
    image: Option<string>,
    groupId: GroupId,
    readBy: set<UserId>)

  /** A user document. `password` is the stored bcrypt hash, opaque here;
      `otp` and `fcmToken` are "" when unset. */
  datatype User = User(
    id: UserId,
    name: string,
    email: string,
    image: string,
    password: string,
    otp: string,
    isDeactivate: bool,
    deactivatedAt: Option<int>,
    isSuspended: bool,
    fcmToken: string)

  datatype ReportKind = UserReport | GroupChatReport

  datatype Report = Report(
    kind: ReportKind,
    reportBy: UserId,
    reportedId: RecordId,
    reason: string,
    description: string,
    image: Option<string>,
    isAcknowledged: bool)

  /** A stored string that the handler writes as `x || null`. */
  function OrNull(s: string): (r: Option<string>)
    ensures r.None? <==> s == ""
    ensures r.Some? ==> r.value == s
  {
    if s == "" then None else Some(s)
  }

  /** The `type` query parameter of the friend-request and group-invitation
      listings: "sent" selects by sender, "received" by receiver, anything
      else by either side. */
  predicate OnSide(kind: string, caller: UserId, sender: UserId, receiver: UserId) {
    if kind == "sent" then sender == caller
    else if kind == "received" then receiver == caller
    else sender == caller || receiver == caller
  }

  /** The optional `status` query parameter: absent ("") selects every
      status, otherwise the stored status must equal it exactly. */
  predicate StatusSelected(query: string, s: RequestStatus) {
    query == "" || StatusName(s) == query
  }

  /** Preferred skill of a group chat; the schema defaults it to casual. */
  datatype Skill = Casual | Beginner | Intermediate | Advanced

  /** The skill a request string names, if it is one of the four listed. */
  function ParseSkill(s: string): (k: Option<Skill>)
    ensures k.Some? <==> s in {"casual", "beginner", "intermediate", "advanced"}
  {
    if s == "casual" then Some(Casual)
    else if s == "beginner" then Some(Beginner)
    else if s == "intermediate" then Some(Intermediate)
    else if s == "advanced" then Some(Advanced)
    else None
  }

  /** A group chat. `members` keeps the order of joining; `joinedAt` maps a
      member to the time it joined (its entries are inserted and removed
      together with `members`, so the map's key order is the member order).
      An empty `image` or `description` is an unset one. */
  datatype Group = Group(
    name: string,
    image: string,
    description: string,
    maxMembers: int,
    sportType: RecordId,
    skill: Skill,
    members: seq<UserId>,
    creator: UserId,
    admin: UserId,
    locationId: RecordId,
    joinedAt: map<UserId, int>,
    lastMessage: Option<MsgId>)

  datatype Location = Location(
    name: string,
    description: string,
    latitude: real,
    longitude: real,
    images: seq<string>,
    sportTypes: seq<RecordId>)

  datatype SportType = SportType(name: string)

  /** A call into the image host: destroying one image by its public id, or
      removing a whole folder with its images. */
  datatype CloudOp = DestroyImage(publicId: string) | DeleteFolder(folder: string)

  /** The collections the handlers read and write, keyed by document id;
      notifications in creation order, and the log of image-host calls. */
  datatype Db = Db(
    users: map<UserId, User>,
    friendRequests: map<RecordId, FriendRequest>,
    friendships: map<RecordId, Friendship>,
    directChats: map<ChatId, DirectChat>,
    directMessages: map<MsgId, DirectMessage>,
    groups: map<GroupId, Group>,
    groupMessages: map<MsgId, GroupMessage>,
    invitations: map<RecordId, Invitation>,
    notifications: seq<Notification>,
    reports: map<RecordId, Report>,
    locations: map<RecordId, Location>,
    sportTypes: map<RecordId, SportType>,
    cloud: seq<CloudOp>)
}
