/** The socket layer (playbuddy_backend/src/libs/socket.ts): the registry of
    online users, the rooms sockets join, the read receipts written through
    sockets, and the events each handler emits. Every handler is one atomic
    step from a server state to a new state and the emissions it made, in
    order. A socket that closes is forgotten by the transport together with
    its rooms; its "disconnect" handler runs as part of the step that closes
    it. */
module Presence {
  import opened Wrappers
  import opened Records
  import opened Seqs

  type SocketId = string

  /** `onlineUsers`, a JS `Map` from user id to socket id. Its keys keep
      insertion order: `order` lists them, and re-setting a present key
      keeps its place. */
  datatype Registry = Registry(order: seq<UserId>, socketOf: map<UserId, SocketId>)

  predicate RegistryValid(r: Registry) {
    && Distinct(r.order)
    && (forall u :: u in r.order ==> u in r.socketOf)
    && (forall u :: u in r.socketOf ==> u in r.order)
  }

  /** `onlineUsers.set(u, s)`. */
  function Register(r: Registry, u: UserId, s: SocketId): (r': Registry)
    ensures r'.socketOf == r.socketOf[u := s]
  {
    Registry(if u in r.socketOf then r.order else r.order + [u], r.socketOf[u := s])
  }

  /** `onlineUsers.delete(u)`. */
  function Unregister(r: Registry, u: UserId): (r': Registry)
    ensures r'.socketOf == r.socketOf - {u}
  {
    Registry(Without(r.order, u), r.socketOf - {u})
  }

  /** Setting keeps the key list duplicate-free and in step with the map;
      a key already present keeps its place, a new one goes last. */
  lemma RegisterKeepsValid(r: Registry, u: UserId, s: SocketId)
    requires RegistryValid(r)
    ensures RegistryValid(Register(r, u, s))
    ensures u in r.socketOf ==> Register(r, u, s).order == r.order
    ensures u !in r.socketOf ==> Register(r, u, s).order == r.order + [u]
  {
    if u !in r.socketOf {
      AppendDistinct(r.order, u);
    }
  }

  /** Deleting keeps the key list duplicate-free and in step with the map,
      and the other keys keep their relative order. */
  lemma UnregisterKeepsValid(r: Registry, u: UserId)
    requires RegistryValid(r)
    ensures RegistryValid(Unregister(r, u))
    ensures Unregister(r, u).order == Without(r.order, u)
  {
    WithoutDistinct(r.order, u);
  }

  /** A connected socket: the user it last announced (`socket.data.userId`,
      "" before any announce) and the rooms it joined. */
  datatype Conn = Conn(userId: UserId, rooms: set<GroupId>)

  datatype Server = Server(reg: Registry, sockets: map<SocketId, Conn>, db: Db)

  /** The registry is well formed and never holds the empty user id. */
  predicate Valid(st: Server) {
    RegistryValid(st.reg) && "" !in st.reg.socketOf
  }

  /** Where an event is sent. `SocketBut(id, from)` is `socket.to(id)`
      emitted by socket `from`, which never reaches `from` itself. */
  datatype Target = Everyone | Socket(id: SocketId) | Room(group: GroupId) | SocketBut(id: SocketId, from: SocketId)

  datatype Payload =
    | OnlineUsers(users: seq<UserId>)
    | ReceiveDirectMessage(sender: UserId, receiver: UserId)
    | ReceiveGroupMessage(message: MsgId)
    | UpdateGroupLastMessage(message: MsgId)
    | DirectMessagesRead(chat: ChatId, messages: seq<MsgId>)
    | GroupMessagesRead(group: GroupId, messages: seq<MsgId>, reader: UserId)
    | UpdateGroupLastMessageReadStatus
    | UnfriendReceive(chat: ChatId)

  datatype Emission = Emission(target: Target, payload: Payload)

  datatype Step = Step(server: Server, out: seq<Emission>)

  /** The sockets a target reaches among the connected ones. Rooms are
      whatever sockets joined them. */
  function Recipients(sockets: map<SocketId, Conn>, t: Target): (rs: set<SocketId>)
    ensures rs <= sockets.Keys
  {
    match t
    case Everyone => sockets.Keys
    case Socket(id) => if id in sockets then {id} else {}
    case Room(g) => set s | s in sockets && g in sockets[s].rooms
    case SocketBut(id, from) => if id in sockets && id != from then {id} else {}
  }

  // ---------------------------------------------------------------------
  // Presence
  // ---------------------------------------------------------------------

  /** A new socket connects: no user, no rooms. */
  function Connect(st: Server, sock: SocketId): (r: Step)
  {
    if sock in st.sockets then Step(st, [])
    else Step(st.(sockets := st.sockets[sock := Conn("", {})]), [])
  }

  /** A socket closes. Its handler removes the registry entry of the user
      the socket last announced only while that entry still names this
      socket, and broadcasts the online list only then. */
  function Disconnect(st: Server, sock: SocketId): (r: Step)
    ensures r.server.sockets == st.sockets - {sock} && r.server.db == st.db
  {
    if sock !in st.sockets then Step(st, [])
    else
      var u := st.sockets[sock].userId;
      var sockets := st.sockets - {sock};
      if u != "" && u in st.reg.socketOf && st.reg.socketOf[u] == sock then
        var reg := Unregister(st.reg, u);
        Step(st.(reg := reg, sockets := sockets), [Emission(Everyone, OnlineUsers(reg.order))])
      else Step(st.(sockets := sockets), [])
  }

  /** The "user-online" announce. An empty id is ignored. A different
      socket already registered for the user is closed first (running its
      own disconnect handler); then the user maps to this socket, the socket
      records the user, and the online list is broadcast. */
  function Announce(st: Server, sock: SocketId, user: UserId): (r: Step)
  {
    if sock !in st.sockets || user == "" then Step(st, [])
    else
      var evict := if user in st.reg.socketOf && st.reg.socketOf[user] != sock
                   then Disconnect(st, st.reg.socketOf[user]) else Step(st, []);
      var st1 := evict.server;
      var reg := Register(st1.reg, user, sock);
      Step(st1.(reg := reg, sockets := st1.sockets[sock := Conn(user, st.sockets[sock].rooms)]),
           evict.out + [Emission(Everyone, OnlineUsers(reg.order))])
  }

  /** An announce with an empty id changes nothing. Otherwise the user now
      maps to this socket, which records the user; every other registry
      entry is one that was there before, untouched, and the only entry that
      can go is the one of the user recorded on the socket that was closed.
      The last emission broadcasts the full list of registered users. */
  lemma AnnounceSpec(st: Server, sock: SocketId, user: UserId)
    requires sock in st.sockets
    ensures user == "" ==> Announce(st, sock, user) == Step(st, [])
    ensures user != "" ==>
              var r := Announce(st, sock, user);
              && r.server.reg.socketOf[user] == sock
              && sock in r.server.sockets && r.server.sockets[sock].userId == user
              && |r.out| >= 1
              && r.out[|r.out| - 1] == Emission(Everyone, OnlineUsers(r.server.reg.order))
              && (forall v :: v in r.server.reg.socketOf && v != user ==>
                    v in st.reg.socketOf && r.server.reg.socketOf[v] == st.reg.socketOf[v])
              && (forall v :: v in st.reg.socketOf && v != user && v !in r.server.reg.socketOf ==>
                    user in st.reg.socketOf
                    && var closed := st.reg.socketOf[user];
                       closed != sock && closed in st.sockets
                       && st.sockets[closed].userId == v && st.reg.socketOf[v] == closed)
              && r.server.db == st.db
  {
  }

  /** Every step of the presence handlers keeps the registry well formed. */
  lemma AnnounceKeepsValid(st: Server, sock: SocketId, user: UserId)
    requires Valid(st)
    ensures Valid(Announce(st, sock, user).server)
  {
    if sock in st.sockets && user != "" {
      if user in st.reg.socketOf && st.reg.socketOf[user] != sock {
        DisconnectKeepsValid(st, st.reg.socketOf[user]);
      }
      var evict := if user in st.reg.socketOf && st.reg.socketOf[user] != sock
                   then Disconnect(st, st.reg.socketOf[user]) else Step(st, []);
      RegisterKeepsValid(evict.server.reg, user, sock);
    }
  }

  lemma DisconnectKeepsValid(st: Server, sock: SocketId)
    requires Valid(st)
    ensures Valid(Disconnect(st, sock).server)
  {
    if sock in st.sockets {
      UnregisterKeepsValid(st.reg, st.sockets[sock].userId);
    }
  }

  /** A disconnect removes an entry exactly when the registry still maps
      the socket's recorded user to this socket, and emits exactly then; a
      stale disconnect leaves the registry as it was and says nothing. */
  lemma DisconnectSpec(st: Server, sock: SocketId)
    requires Valid(st)
    ensures var r := Disconnect(st, sock);
            var owns := sock in st.sockets && st.sockets[sock].userId in st.reg.socketOf
                        && st.reg.socketOf[st.sockets[sock].userId] == sock;
            && (owns ==> r.server.reg.socketOf == st.reg.socketOf - {st.sockets[sock].userId}
                         && r.out == [Emission(Everyone, OnlineUsers(r.server.reg.order))])
            && (!owns ==> r.server.reg == st.reg && r.out == [])
  {
  }

  /** The latest announce wins: when a user registered on one socket
      announces from another, the first socket is closed, the user maps to
      the second, and a later close event for the first socket finds
      nothing to do. */
  lemma LatestAnnounceWins(st: Server, s1: SocketId, s2: SocketId, user: UserId)
    requires Valid(st) && s2 in st.sockets && user in st.reg.socketOf
    requires st.reg.socketOf[user] == s1 && s1 != s2
    ensures var b := Announce(st, s2, user).server;
            && b.reg.socketOf[user] == s2
            && s1 !in b.sockets
            && Disconnect(b, s1) == Step(b, [])
  {
    AnnounceSpec(st, s2, user);
  }

  /** A socket records only the last user it announced: when one socket
      announces two users and then closes, the first user's entry
      survives, still naming the closed socket. */
  lemma OneSocketTwoUsers(st: Server, sock: SocketId, u1: UserId, u2: UserId)
    requires Valid(st) && sock in st.sockets && u1 != "" && u2 != "" && u1 != u2
    ensures var a := Announce(Announce(st, sock, u1).server, sock, u2).server;
            var d := Disconnect(a, sock).server;
            && u1 in d.reg.socketOf && d.reg.socketOf[u1] == sock
            && u2 !in d.reg.socketOf
            && sock !in d.sockets
  {
    AnnounceSpec(st, sock, u1);
    var a1 := Announce(st, sock, u1).server;
    AnnounceKeepsValid(st, sock, u1);
    AnnounceSpec(a1, sock, u2);
    var a := Announce(a1, sock, u2).server;
    AnnounceKeepsValid(a1, sock, u2);
    DisconnectSpec(a, sock);
  }

  // ---------------------------------------------------------------------
  // Rooms and messages
  // ---------------------------------------------------------------------

  /** "join-group": any socket may join any room; nobody checks that its
      user is a member of the group. */
  function JoinRoom(st: Server, sock: SocketId, g: GroupId): (r: Step)
  {
    if sock !in st.sockets then Step(st, [])
    else Step(st.(sockets := st.sockets[sock := st.sockets[sock].(rooms := st.sockets[sock].rooms + {g})]), [])
  }

  function LeaveRoom(st: Server, sock: SocketId, g: GroupId): (r: Step)
  {
    if sock !in st.sockets then Step(st, [])
    else Step(st.(sockets := st.sockets[sock := st.sockets[sock].(rooms := st.sockets[sock].rooms - {g})]), [])
  }

  /** Whoever joins a group's room receives what is sent to it, member or
      not; leaving stops that. */
  lemma RoomsHaveNoMembershipCheck(st: Server, sock: SocketId, g: GroupId)
    requires sock in st.sockets
    ensures sock in Recipients(JoinRoom(st, sock, g).server.sockets, Room(g))
    ensures sock !in Recipients(LeaveRoom(st, sock, g).server.sockets, Room(g))
  {
  }

  /** "send-direct-message": relayed only to the receiver's registered
      socket, and only when both users exist. */
  function SendDirect(st: Server, sender: UserId, receiver: UserId): (r: Step)
    ensures r.server == st
    ensures r.out != [] <==> sender in st.db.users && receiver in st.db.users && receiver in st.reg.socketOf
    ensures r.out != [] ==>
              r.out == [Emission(Socket(st.reg.socketOf[receiver]), ReceiveDirectMessage(sender, receiver))]
  {
    if sender !in st.db.users || receiver !in st.db.users then Step(st, [])
    else if receiver !in st.reg.socketOf then Step(st, [])
    else Step(st, [Emission(Socket(st.reg.socketOf[receiver]), ReceiveDirectMessage(sender, receiver))])
  }

  /** The members that have a registry entry, in member order. */
  function OnlineOf(members: seq<UserId>, reg: Registry): (on: seq<UserId>)
    ensures forall u :: u in on <==> u in members && u in reg.socketOf
    ensures |on| <= |members|
  {
    if members == [] then []
    else (if members[0] in reg.socketOf then [members[0]] else []) + OnlineOf(members[1..], reg)
  }

  /** One emission of `p` to the socket of each online member. */
  function MemberSignals(members: seq<UserId>, reg: Registry, p: Payload): (es: seq<Emission>)
  {
    var on := OnlineOf(members, reg);
    seq(|on|, i requires 0 <= i < |on| => Emission(Socket(reg.socketOf[on[i]]), p))
  }

  /** The signals reach exactly the sockets of the online members. */
  lemma MemberSignalsTargets(members: seq<UserId>, reg: Registry, p: Payload)
    ensures var es := MemberSignals(members, reg, p);
            && (forall i :: 0 <= i < |es| ==> es[i].payload == p)
            && (set i | 0 <= i < |es| :: es[i].target)
               == (set u | u in members && u in reg.socketOf :: Socket(reg.socketOf[u]))
  {
    var on := OnlineOf(members, reg);
    var es := MemberSignals(members, reg, p);
    var lhs := set i | 0 <= i < |es| :: es[i].target;
    var rhs := set u | u in members && u in reg.socketOf :: Socket(reg.socketOf[u]);
    forall t | t in rhs ensures t in lhs {
      var u :| u in members && u in reg.socketOf && t == Socket(reg.socketOf[u]);
      assert u in on;
      var i :| 0 <= i < |on| && on[i] == u;
      assert es[i].target == t;
    }
    forall t | t in lhs ensures t in rhs {
      var i :| 0 <= i < |es| && es[i].target == t;
      assert on[i] in on;
    }
  }

  /** The group members of `gid`, or none when the group does not exist. */
  function MembersOf(db: Db, gid: GroupId): seq<UserId> {
    if gid in db.groups then db.groups[gid].members else []
  }

  /** "send-group-message": for a stored message, one event to the group's
      room, then one last-message update to each online member, the sender
      included. A missing group id throws before anything is sent. */
  function SendGroup(st: Server, msg: MsgId, gid: GroupId): (r: Step)
    ensures r.server == st
    ensures r.out != [] <==> msg in st.db.groupMessages && gid != ""
    ensures r.out != [] ==>
              && r.out[0] == Emission(Room(gid), ReceiveGroupMessage(msg))
              && r.out[1..] == MemberSignals(MembersOf(st.db, gid), st.reg, UpdateGroupLastMessage(msg))
  {
    if msg !in st.db.groupMessages || gid == "" then Step(st, [])
    else Step(st, [Emission(Room(gid), ReceiveGroupMessage(msg))]
                  + MemberSignals(MembersOf(st.db, gid), st.reg, UpdateGroupLastMessage(msg)))
  }

  // ---------------------------------------------------------------------
  // Read receipts
  // ---------------------------------------------------------------------

  /** `updateMany({_id: {$in: ids}}, {$set: {isRead: true}})`. */
  function MarkDirectRead(msgs: map<MsgId, DirectMessage>, ids: seq<MsgId>): (r: map<MsgId, DirectMessage>)
    ensures r.Keys == msgs.Keys
    ensures forall m :: m in msgs ==> r[m] == if m in ids then msgs[m].(isRead := true) else msgs[m]
  {
    map m | m in msgs :: if m in ids then msgs[m].(isRead := true) else msgs[m]
  }

  /** The socket of `u` when online, as a one-element list of emissions. */
  function ToUser(reg: Registry, u: UserId, p: Payload): (es: seq<Emission>)
    ensures u in reg.socketOf ==> es == [Emission(Socket(reg.socketOf[u]), p)]
    ensures u !in reg.socketOf ==> es == []
  {
    if u in reg.socketOf then [Emission(Socket(reg.socketOf[u]), p)] else []
  }

  /** "read-all-direct-messages": with every id given and a non-empty list,
      the listed messages become read, and the same payload goes to the
      sender's and then the receiver's socket, each when online. */
  function ReadDirect(st: Server, chat: ChatId, sender: UserId, receiver: UserId, ids: seq<MsgId>): (r: Step)
  {
    if chat == "" || sender == "" || receiver == "" || ids == [] then Step(st, [])
    else
      var p := DirectMessagesRead(chat, ids);
      Step(st.(db := st.db.(directMessages := MarkDirectRead(st.db.directMessages, ids))),
           ToUser(st.reg, sender, p) + ToUser(st.reg, receiver, p))
  }

  /** A read-direct event with a missing id or no messages does nothing;
      otherwise exactly the listed messages are read afterwards, the rest
      keep their flag, and the receipt goes to whichever of the two users is
      online. */
  lemma ReadDirectSpec(st: Server, chat: ChatId, sender: UserId, receiver: UserId, ids: seq<MsgId>)
    ensures var r := ReadDirect(st, chat, sender, receiver, ids);
            var given := chat != "" && sender != "" && receiver != "" && ids != [];
            var p := DirectMessagesRead(chat, ids);
            && (!given ==> r == Step(st, []))
            && r.server.reg == st.reg && r.server.sockets == st.sockets
            && r.server.db.directMessages.Keys == st.db.directMessages.Keys
            && (forall m :: m in st.db.directMessages ==>
                  r.server.db.directMessages[m].isRead
                    == (st.db.directMessages[m].isRead || (given && m in ids)))
            && (forall e :: e in r.out ==>
                  && e.payload == p
                  && ((sender in st.reg.socketOf && e.target == Socket(st.reg.socketOf[sender]))
                      || (receiver in st.reg.socketOf && e.target == Socket(st.reg.socketOf[receiver]))))
            && (given && sender in st.reg.socketOf ==> Emission(Socket(st.reg.socketOf[sender]), p) in r.out)
            && (given && receiver in st.reg.socketOf ==> Emission(Socket(st.reg.socketOf[receiver]), p) in r.out)
  {
  }

  /** The reader's id joins `readBy` of each listed message where it is
      absent (`$addToSet` on the messages whose `readBy` lacks it). */
  function MarkGroupRead(msgs: map<MsgId, GroupMessage>, ids: seq<MsgId>, reader: UserId): (r: map<MsgId, GroupMessage>)
    ensures r.Keys == msgs.Keys
  {
    map m | m in msgs :: if m in ids then msgs[m].(readBy := msgs[m].readBy + {reader}) else msgs[m]
  }

  /** "read-all-group-messages" from the socket `sock`: the reader is the
      user the socket announced. With a group id and a non-empty list the
      messages are marked; when the reader is a stored user, one event goes
      to the group's room and one signal to each online member. A socket
      that never announced a user marks nothing (its read has no reader). */
  function ReadGroup(st: Server, sock: SocketId, gid: GroupId, ids: seq<MsgId>): (r: Step)
  {
    if sock !in st.sockets || gid == "" || ids == [] then Step(st, [])
    else
      var reader := st.sockets[sock].userId;
      if reader == "" then Step(st, [])
      else
        var st1 := st.(db := st.db.(groupMessages := MarkGroupRead(st.db.groupMessages, ids, reader)));
        if reader !in st.db.users then Step(st1, [])
        else Step(st1, [Emission(Room(gid), GroupMessagesRead(gid, ids, reader))]
                       + MemberSignals(MembersOf(st.db, gid), st.reg, UpdateGroupLastMessageReadStatus))
  }

  /** Read-group marks exactly the listed messages as read by the reader,
      never removes a reader, and marking again changes nothing. */
  lemma ReadGroupSpec(st: Server, sock: SocketId, gid: GroupId, ids: seq<MsgId>)
    ensures var r := ReadGroup(st, sock, gid, ids);
            && r.server.reg == st.reg && r.server.sockets == st.sockets
            && r.server.db.groupMessages.Keys == st.db.groupMessages.Keys
            && (forall m :: m in st.db.groupMessages ==>
                  st.db.groupMessages[m].readBy <= r.server.db.groupMessages[m].readBy)
            && (r.server != st ==>
                  var reader := st.sockets[sock].userId;
                  forall m :: m in st.db.groupMessages ==>
                    r.server.db.groupMessages[m].readBy
                      == if m in ids then st.db.groupMessages[m].readBy + {reader}
                         else st.db.groupMessages[m].readBy)
            && ReadGroup(r.server, sock, gid, ids).server == r.server
  {
    var r := ReadGroup(st, sock, gid, ids);
    if sock in st.sockets && gid != "" && ids != [] && st.sockets[sock].userId != "" {
      var reader := st.sockets[sock].userId;
      var gm := r.server.db.groupMessages;
      assert MarkGroupRead(gm, ids, reader) == gm;
    }
  }

  /** "unfriend": relayed to the friend's socket when online, never back to
      the sending socket. */
  function Unfriend(st: Server, sock: SocketId, chat: ChatId, friend: UserId): (r: Step)
    ensures r.server == st
    ensures r.out != [] <==> sock in st.sockets && friend in st.reg.socketOf
    ensures r.out != [] ==> r.out == [Emission(SocketBut(st.reg.socketOf[friend], sock), UnfriendReceive(chat))]
  {
    if sock !in st.sockets || friend !in st.reg.socketOf then Step(st, [])
    else Step(st, [Emission(SocketBut(st.reg.socketOf[friend], sock), UnfriendReceive(chat))])
  }

  // ---------------------------------------------------------------------
  // Runs of events
  // ---------------------------------------------------------------------

  datatype Event =
    | Connected(sock: SocketId)
    | Closed(sock: SocketId)
    | UserOnline(sock: SocketId, user: UserId)
    | JoinGroup(sock: SocketId, group: GroupId)
    | LeaveGroup(sock: SocketId, group: GroupId)
    | SendDirectMessage(sock: SocketId, sender: UserId, receiver: UserId)
    | SendGroupMessage(sock: SocketId, message: MsgId, group: GroupId)
    | ReadDirectMessages(sock: SocketId, chat: ChatId, sender: UserId, receiver: UserId, messages: seq<MsgId>)
    | ReadGroupMessages(sock: SocketId, group: GroupId, messages: seq<MsgId>)
    | UnfriendEvent(sock: SocketId, chat: ChatId, friend: UserId)

  /** One event handled by its socket's handler; events of sockets that are
      not connected do not arrive. */
  function Handle(st: Server, e: Event): (r: Step)
  {
    if !e.Connected? && e.sock !in st.sockets then Step(st, [])
    else
      match e
      case Connected(s) => Connect(st, s)
      case Closed(s) => Disconnect(st, s)
      case UserOnline(s, u) => Announce(st, s, u)
      case JoinGroup(s, g) => JoinRoom(st, s, g)
      case LeaveGroup(s, g) => LeaveRoom(st, s, g)
      case SendDirectMessage(_, a, b) => SendDirect(st, a, b)
      case SendGroupMessage(_, m, g) => SendGroup(st, m, g)
      case ReadDirectMessages(_, c, a, b, ids) => ReadDirect(st, c, a, b, ids)
      case ReadGroupMessages(s, g, ids) => ReadGroup(st, s, g, ids)
      case UnfriendEvent(s, c, f) => Unfriend(st, s, c, f)
  }

  function Run(st: Server, es: seq<Event>): (r: Server)
    decreases |es|
  {
    if es == [] then st else Run(Handle(st, es[0]).server, es[1..])
  }

  /** Read state only grows in one step: a read direct message stays read,
      and no reader ever leaves a group message's `readBy`. */
  predicate ReadGrows(a: Db, b: Db) {
    && a.directMessages.Keys <= b.directMessages.Keys
    && a.groupMessages.Keys <= b.groupMessages.Keys
    && (forall m :: m in a.directMessages && a.directMessages[m].isRead ==> b.directMessages[m].isRead)
    && (forall m :: m in a.groupMessages ==> a.groupMessages[m].readBy <= b.groupMessages[m].readBy)
  }

  lemma HandleKeepsValidAndReadGrows(st: Server, e: Event)
    requires Valid(st)
    ensures Valid(Handle(st, e).server)
    ensures ReadGrows(st.db, Handle(st, e).server.db)
  {
    if !e.Connected? && e.sock !in st.sockets {
    } else {
      match e
      case Closed(s) => DisconnectKeepsValid(st, s);
      case UserOnline(s, u) =>
        AnnounceKeepsValid(st, s, u);
        AnnounceSpec(st, s, u);
      case ReadGroupMessages(s, g, ids) => ReadGroupSpec(st, s, g, ids);
      case ReadDirectMessages(_, c, a, b, ids) => ReadDirectSpec(st, c, a, b, ids);
      case _ =>
    }
  }

  /** Over any run of events the registry stays well formed and read state
      is monotone: once read, a message stays read by everyone who read it. */
  lemma {:induction false} RunKeepsValidAndReadGrows(st: Server, es: seq<Event>)
    requires Valid(st)
    ensures Valid(Run(st, es))
    ensures ReadGrows(st.db, Run(st, es).db)
    decreases |es|
  {
    if es != [] {
      HandleKeepsValidAndReadGrows(st, es[0]);
      RunKeepsValidAndReadGrows(Handle(st, es[0]).server, es[1..]);
    }
  }
}
