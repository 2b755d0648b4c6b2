/** Group chats: the membership state machine of the group-chat handlers
    (create, join, leave, kick, set-as-admin, update, delete), the
    invitation and report guards, and the group record's schema bounds.
    Every handler either rejects, leaving the store as it was, or returns
    the new store. */
module GroupChat {
  import opened Wrappers
  import opened Records
  import opened Seqs
  import Text
  import Push

  datatype Error =
    | LocationIdRequired
    | MissingFields
    | NameLength
    | InvalidName
    | DescriptionTooLong
    | MaxMembersRange
    | InvalidSkill
    | LocationNotFound
    | SportTypeNotAllowed
    | SchemaRejected
    | DuplicateKey
    | GroupNotFound
    | NotAllowed
    | GroupFull
    | AlreadyMember
    | NotMember
    | CannotKickSelf
    | AlreadyAdmin
    | UserIdRequired
    | CannotReportOwnGroup
    | ReasonRequired
    | InvalidReason

  /** The folder of group pictures on the image host. */
  const GroupImageFolder := "group_chat_images"

  /** The reasons a group chat can be reported for. */
  const GroupReportReasons: seq<string> :=
    ["Inappropriate group name", "Inappropriate group image", "Inappropriate group content"]

  // ---------------------------------------------------------------------
  // Invariants
  // ---------------------------------------------------------------------

  /** The membership invariant: at least one member, no member twice, the
      admin is a member, and exactly the members have a join time. */
  predicate Valid(g: Group) {
    && |g.members| >= 1
    && Distinct(g.members)
    && g.admin in g.members
    && g.joinedAt.Keys == set m | m in g.members
  }

  predicate AllValid(groups: map<GroupId, Group>) {
    forall id :: id in groups ==> Valid(groups[id])
  }

  /** The bounds the schema puts on a stored group: name length 3-30,
      description at most 300, maxMembers 2-30. Every save of a group
      document (create, join, leave, kick, set-as-admin) checks them on the
      whole document and refuses it when one fails; the update queries of
      the group admin and of the site admin do not check them. */
  predicate SchemaBounds(g: Group) {
    && 3 <= |g.name| <= 30
    && |g.description| <= 300
    && 2 <= g.maxMembers <= 30
  }

  /** The name rule of the group-chat handlers: the trimmed name is 3-30
      characters of words (letters, digits, apostrophes) split by single
      spaces. */
  predicate NameAccepted(name: string) {
    var t := Text.Trim(name);
    3 <= |t| <= 30 && Text.NameRegex(t, true)
  }

  // ---------------------------------------------------------------------
  // Listing by location
  // ---------------------------------------------------------------------

  /** `getAllGroupChatInLocation`: the group chats that meet at `loc`. */
  function InLocation(db: Db, loc: RecordId): (gs: set<GroupId>)
    ensures forall g :: g in gs <==> g in db.groups && db.groups[g].locationId == loc
  {
    set g | g in db.groups && db.groups[g].locationId == loc
  }

  // ---------------------------------------------------------------------
  // Create
  // ---------------------------------------------------------------------

  /** The request body of `createGroupChat`; "" and 0 are absent values. */
  datatype CreateRequest = CreateRequest(
    name: string,
    description: string,
    sportType: RecordId,
    maxMembers: int,
    skill: string,
    locationId: RecordId)

  /** The checks of `createGroupChat`, in their order. */
  function CreateChecks(db: Db, gid: GroupId, req: CreateRequest): (o: Outcome<Error>)
    ensures o.Pass? ==> ParseSkill(req.skill).Some?
  {
    if req.locationId == "" then Fail(LocationIdRequired)
    else if req.name == "" || req.sportType == "" || req.skill == "" || req.maxMembers == 0 then Fail(MissingFields)
    else if !(3 <= |Text.Trim(req.name)| <= 30) then Fail(NameLength)
    else if !Text.NameRegex(Text.Trim(req.name), true) then Fail(InvalidName)
    else if req.description != "" && |Text.Trim(req.description)| > 300 then Fail(DescriptionTooLong)
    else if !(2 <= req.maxMembers <= 30) then Fail(MaxMembersRange)
    else if ParseSkill(req.skill).None? then Fail(InvalidSkill)
    else if req.locationId !in db.locations then Fail(LocationNotFound)
    else if req.sportType !in db.locations[req.locationId].sportTypes then Fail(SportTypeNotAllowed)
    // the document is validated against the schema when saved; the stored
    // name and description are the untrimmed ones
    else if !(|req.name| <= 30 && |req.description| <= 300) then Fail(SchemaRejected)
    else if gid in db.groups then Fail(DuplicateKey)
    else Pass
  }

  /** `createGroupChat`: the new group is stored under `gid`. */
  function Create(db: Db, caller: UserId, gid: GroupId, req: CreateRequest, now: int): (r: Result<Db, Error>)
  {
    var checks := CreateChecks(db, gid, req);
    :- checks;
    var g := Group(req.name, "", req.description, req.maxMembers, req.sportType,
                   ParseSkill(req.skill).value, [caller], caller, caller, req.locationId,
                   map[caller := now], None);
    Ok(db.(groups := db.groups[gid := g]))
  }

  /** A created group is listed at its location and nowhere else; the
      listings of every location gain nothing but it. */
  lemma CreateListedAtLocation(db: Db, caller: UserId, gid: GroupId, req: CreateRequest, now: int,
                               loc: RecordId)
    requires Create(db, caller, gid, req, now).Ok?
    ensures var db' := Create(db, caller, gid, req, now).value;
            && (gid in InLocation(db', loc) <==> loc == req.locationId)
            && InLocation(db', loc) - {gid} == InLocation(db, loc)
  {
    CreatedGroup(db, caller, gid, req, now);
    var db' := Create(db, caller, gid, req, now).value;
    assert db'.groups[gid].locationId == req.locationId;
  }

  /** Everything `createGroupChat` demands, stated without its order. */
  predicate Creatable(db: Db, gid: GroupId, req: CreateRequest) {
    && req.locationId != "" && req.sportType != "" && req.skill != ""
    && NameAccepted(req.name)
    && |req.name| <= 30
    && |req.description| <= 300
    && 2 <= req.maxMembers <= 30
    && req.skill in {"casual", "beginner", "intermediate", "advanced"}
    && req.locationId in db.locations
    && req.sportType in db.locations[req.locationId].sportTypes
    && gid !in db.groups
  }

  /** Create succeeds exactly for the creatable requests. */
  lemma CreateAcceptsExactly(db: Db, caller: UserId, gid: GroupId, req: CreateRequest, now: int)
    ensures Create(db, caller, gid, req, now).Ok? <==> Creatable(db, gid, req)
  {
    CreateChecksMeaning(db, gid, req);
  }

  /** The checks pass exactly for the creatable requests. */
  lemma CreateChecksMeaning(db: Db, gid: GroupId, req: CreateRequest)
    ensures CreateChecks(db, gid, req).Pass? <==> Creatable(db, gid, req)
  {
    if Creatable(db, gid, req) {
      CreatableRequestPasses(db, gid, req);
    }
    if CreateChecks(db, gid, req).Pass? {
      PassingRequestIsCreatable(db, gid, req);
    }
  }

  lemma PassingRequestIsCreatable(db: Db, gid: GroupId, req: CreateRequest)
    requires CreateChecks(db, gid, req).Pass?
    ensures Creatable(db, gid, req)
  {
    assert req.locationId != "" && req.sportType != "" && req.skill != "";
    assert NameAccepted(req.name);
    assert ParseSkill(req.skill).Some?;
  }

  lemma CreatableRequestPasses(db: Db, gid: GroupId, req: CreateRequest)
    requires Creatable(db, gid, req)
    ensures CreateChecks(db, gid, req) == Pass
  {
    var t := Text.Trim(req.name);
    assert 3 <= |t| <= 30 && Text.NameRegex(t, true);
    assert req.name != "" by {
      assert |t| <= |req.name|;
    }
    assert req.maxMembers != 0;
    assert !(req.description != "" && |Text.Trim(req.description)| > 300) by {
      assert |Text.Trim(req.description)| <= |req.description|;
    }
    assert ParseSkill(req.skill).Some?;
    assert req.locationId in db.locations && req.sportType in db.locations[req.locationId].sportTypes;
  }

  /** The new group has the caller as its only member, creator and admin,
      joined now, no image and no last message; it satisfies the membership
      invariant and the schema bounds, and is the only change to the store. */
  lemma CreatedGroup(db: Db, caller: UserId, gid: GroupId, req: CreateRequest, now: int)
    requires Create(db, caller, gid, req, now).Ok?
    ensures var db' := Create(db, caller, gid, req, now).value;
            && gid in db'.groups && gid !in db.groups
            && var g := db'.groups[gid];
            && db' == db.(groups := db.groups[gid := g])
            && g.members == [caller] && g.creator == caller && g.admin == caller
            && g.joinedAt == map[caller := now]
            && g.image == "" && g.lastMessage == None
            && g.name == req.name && NameAccepted(g.name)
            && Valid(g) && SchemaBounds(g)
  {
    CreateAcceptsExactly(db, caller, gid, req, now);
    assert |Text.Trim(req.name)| <= |req.name|;
  }

  // ---------------------------------------------------------------------
  // Join
  // ---------------------------------------------------------------------

  /** Joining a group: rejected when the member count equals maxMembers
      (checked before membership), or when the caller is already a member;
      otherwise the caller is appended and joins now, and the save refuses a
      group outside the schema bounds. */
  function JoinGroup(g: Group, caller: UserId, now: int): (r: Result<Group, Error>)
    ensures r.Ok? <==> |g.members| != g.maxMembers && caller !in g.members && SchemaBounds(g)
    ensures |g.members| == g.maxMembers ==> r == Err(GroupFull)
    ensures |g.members| != g.maxMembers && caller in g.members ==> r == Err(AlreadyMember)
    ensures |g.members| != g.maxMembers && caller !in g.members && !SchemaBounds(g) ==>
              r == Err(SchemaRejected)
    ensures r.Ok? ==> r.value.members == g.members + [caller]
                      && r.value.joinedAt == g.joinedAt[caller := now]
                      && r.value == g.(members := r.value.members, joinedAt := r.value.joinedAt)
  {
    if |g.members| == g.maxMembers then Err(GroupFull) else
    :- Need(caller !in g.members, AlreadyMember);
    var g' := g.(members := g.members + [caller], joinedAt := g.joinedAt[caller := now]);
    :- Need(SchemaBounds(g'), SchemaRejected);
    Ok(g')
  }

  lemma JoinKeepsValid(g: Group, caller: UserId, now: int)
    requires Valid(g) && JoinGroup(g, caller, now).Ok?
    ensures Valid(JoinGroup(g, caller, now).value)
  {
    AppendDistinct(g.members, caller);
    var g' := JoinGroup(g, caller, now).value;
    assert (set m | m in g'.members) == (set m | m in g.members) + {caller};
  }

  /** The invitations after a join. With a found invitation, it becomes
      accepted and every other invitation of the caller to this group, of
      any status, becomes old; without one, all of those become old. */
  function SettleInvitations(invs: map<RecordId, Invitation>, gid: GroupId, caller: UserId,
                             invitationId: RecordId): (r: map<RecordId, Invitation>)
  {
    map id | id in invs ::
      if id == invitationId && invitationId in invs then invs[id].(status := Accepted)
      else if invs[id].groupChat == gid && invs[id].receiver == caller then invs[id].(status := Old)
      else invs[id]
  }

  lemma SettleInvitationsSpec(invs: map<RecordId, Invitation>, gid: GroupId, caller: UserId,
                              invitationId: RecordId)
    ensures var r := SettleInvitations(invs, gid, caller, invitationId);
            && r.Keys == invs.Keys
            && (invitationId in invs ==> r[invitationId] == invs[invitationId].(status := Accepted))
            && (forall id :: (id in invs && id != invitationId
                              && invs[id].groupChat == gid && invs[id].receiver == caller) ==>
                  r[id] == invs[id].(status := Old))
            && (forall id :: (id in invs && id != invitationId
                              && !(invs[id].groupChat == gid && invs[id].receiver == caller)) ==>
                  r[id] == invs[id])
            && (forall id :: id in invs ==>
                  (r[id].sender == invs[id].sender && r[id].receiver == invs[id].receiver
                   && r[id].groupChat == invs[id].groupChat))
  {
  }

  /** `joinGroupChat`: the group is saved with the caller added; then the
      invitations are settled, and with a found invitation its sender is
      notified and pushed to. */
  function Join(db: Db, caller: UserId, gid: GroupId, invitationId: RecordId, now: int,
                online: set<UserId>, reply: Push.ProviderReply): (r: Result<Db, Error>)
    ensures r.Ok? <==> gid in db.groups && JoinGroup(db.groups[gid], caller, now).Ok?
    ensures r.Ok? ==> r.value.groups == db.groups[gid := JoinGroup(db.groups[gid], caller, now).value]
  {
    if gid !in db.groups then Err(GroupNotFound) else
    var g :- JoinGroup(db.groups[gid], caller, now);
    var invs := SettleInvitations(db.invitations, gid, caller, invitationId);
    var db1 := db.(groups := db.groups[gid := g], invitations := invs);
    if invitationId in db.invitations then
      var inviter := db.invitations[invitationId].sender;
      Ok(db1.(notifications := db.notifications
                + [NewNotification(GroupInvitationAccepted, caller, inviter, invitationId, now)],
              users := Push.PushTo(db.users, caller, inviter, online, reply)))
    else Ok(db1)
  }

  // ---------------------------------------------------------------------
  // Leave
  // ---------------------------------------------------------------------

  datatype LeaveOutcome = Remains(group: Group) | Dissolved

  /** The members, in order, that have a join time. */
  function WithJoinTime(ms: seq<UserId>, joinedAt: map<UserId, int>): (r: seq<UserId>)
    ensures forall m :: m in r <==> m in ms && m in joinedAt
    ensures (forall m :: m in ms ==> m in joinedAt) ==> r == ms
  {
    if ms == [] then []
    else (if ms[0] in joinedAt then [ms[0]] else []) + WithJoinTime(ms[1..], joinedAt)
  }

  /** The position of the first of `ms` with the earliest join time: the
      head of the join entries after a stable sort by time. */
  function EarliestIndex(ms: seq<UserId>, joinedAt: map<UserId, int>): (k: nat)
    requires |ms| > 0 && forall m :: m in ms ==> m in joinedAt
    ensures k < |ms|
    ensures forall i :: 0 <= i < |ms| ==> joinedAt[ms[k]] <= joinedAt[ms[i]]
    ensures forall i :: 0 <= i < k ==> joinedAt[ms[i]] > joinedAt[ms[k]]
  {
    if |ms| == 1 then 0
    else
      var k := EarliestIndex(ms[1..], joinedAt);
      if joinedAt[ms[0]] <= joinedAt[ms[1..][k]] then 0 else k + 1
  }

  /** `e` is the member a stable sort by join time puts first. */
  predicate FirstEarliest(ms: seq<UserId>, joinedAt: map<UserId, int>, e: UserId)
    requires forall m :: m in ms ==> m in joinedAt
  {
    exists k :: 0 <= k < |ms| && ms[k] == e
      && (forall i :: 0 <= i < |ms| ==> joinedAt[e] <= joinedAt[ms[i]])
      && (forall i :: 0 <= i < k ==> joinedAt[ms[i]] > joinedAt[e])
  }

  /** The earliest index names the first earliest joiner. */
  lemma EarliestIsFirst(ms: seq<UserId>, joinedAt: map<UserId, int>)
    requires |ms| > 0 && forall m :: m in ms ==> m in joinedAt
    ensures FirstEarliest(ms, joinedAt, ms[EarliestIndex(ms, joinedAt)])
  {
  }

  /** `leaveGroupChat` on the group: the caller and its join time are
      removed; a leaving admin hands over to the earliest remaining joiner,
      or dissolves the group when nobody remains. A group that remains is
      saved, and the save refuses it outside the schema bounds; a dissolved
      group is deleted without a save. */
  function LeaveGroup(g: Group, caller: UserId): (r: Result<LeaveOutcome, Error>)
    ensures caller !in g.members <==> r == Err(NotMember)
    ensures caller in g.members && SchemaBounds(g) ==> r.Ok?
    ensures r.Ok? && r.value.Remains? ==> SchemaBounds(g) && SchemaBounds(r.value.group)
    ensures r.Err? && caller in g.members ==> r == Err(SchemaRejected) && !SchemaBounds(g)
    ensures r == Ok(Dissolved) ==> g.admin == caller
  {
    if caller !in g.members then Err(NotMember) else
    var ms := Without(g.members, caller);
    var jt := g.joinedAt - {caller};
    var isAdmin := g.admin == caller;
    var candidates := WithJoinTime(ms, jt);
    var admin := if isAdmin && |ms| > 0 && |candidates| > 0
                 then candidates[EarliestIndex(candidates, jt)] else g.admin;
    if isAdmin && |ms| == 0 then Ok(Dissolved)
    else
      var g' := g.(members := ms, joinedAt := jt, admin := admin);
      :- Need(SchemaBounds(g'), SchemaRejected);
      Ok(Remains(g'))
  }

  /** Leaving a valid group dissolves it exactly when its admin was its
      only member: a leave never leaves an empty group behind. */
  lemma LeaveDissolvesExactly(g: Group, caller: UserId)
    requires Valid(g) && caller in g.members
    ensures LeaveGroup(g, caller) == Ok(Dissolved) <==> g.admin == caller && g.members == [caller]
  {
    WithoutDistinct(g.members, caller);
    var ms := Without(g.members, caller);
    if |ms| == 0 {
      assert g.members == [caller] by {
        assert |g.members| == 1;
        assert g.members[0] in g.members;
      }
    }
  }

  /** Otherwise the save refuses a group outside the schema bounds, and
      accepts any other; the group then stays valid and loses just the
      caller: the other members keep their order and join times; the admin
      is unchanged unless the admin left, in which case the new admin is
      the remaining member a stable sort by join time puts first. */
  lemma LeaveRemains(g: Group, caller: UserId)
    requires Valid(g) && caller in g.members && !(g.admin == caller && g.members == [caller])
    ensures !SchemaBounds(g) ==> LeaveGroup(g, caller) == Err(SchemaRejected)
    ensures SchemaBounds(g) ==> LeaveGroup(g, caller).Ok? && LeaveGroup(g, caller).value.Remains?
    ensures SchemaBounds(g) ==> var g' := LeaveGroup(g, caller).value.group;
            && Valid(g')
            && g'.members == Without(g.members, caller)
            && g'.joinedAt == g.joinedAt - {caller}
            && (g.admin != caller ==> g'.admin == g.admin)
            && (g.admin == caller ==> FirstEarliest(g'.members, g'.joinedAt, g'.admin))
            && g' == g.(members := g'.members, joinedAt := g'.joinedAt, admin := g'.admin)
  {
    LeaveDissolvesExactly(g, caller);
    LeftMembers(g, caller);
    if SchemaBounds(g) {
      var ms := Without(g.members, caller);
      var jt := g.joinedAt - {caller};
      var g' := LeaveGroup(g, caller).value.group;
      assert g' == g.(members := ms, joinedAt := jt, admin := g'.admin);
      if g.admin == caller {
        EarliestIsFirst(ms, jt);
        assert ms[EarliestIndex(ms, jt)] == g'.admin;
      } else {
        assert g'.admin == g.admin;
      }
    }
  }

  /** The members and join times a leave keeps. */
  lemma LeftMembers(g: Group, caller: UserId)
    requires Valid(g) && caller in g.members && !(g.admin == caller && g.members == [caller])
    ensures var ms := Without(g.members, caller);
            var jt := g.joinedAt - {caller};
            && |ms| > 0 && Distinct(ms)
            && jt.Keys == (set m | m in ms)
            && WithJoinTime(ms, jt) == ms
  {
    LeaveDissolvesExactly(g, caller);
    WithoutDistinct(g.members, caller);
    var ms := Without(g.members, caller);
    var jt := g.joinedAt - {caller};
    assert jt.Keys == set m | m in ms;
  }

  /** `leaveGroupChat`: a dissolved group is deleted with its messages and
      images; otherwise the updated group is saved. */
  function Leave(db: Db, caller: UserId, gid: GroupId): (r: Result<Db, Error>)
  {
    if gid !in db.groups then Err(GroupNotFound) else
    var outcome :- LeaveGroup(db.groups[gid], caller);
    match outcome
    case Dissolved => Ok(Dissolve(db, gid))
    case Remains(g) => Ok(db.(groups := db.groups[gid := g]))
  }

  /** The image-host calls that remove a group's picture (when it is hosted
      there) and its message-image folder. */
  function GroupImageCleanup(g: Group, gid: GroupId): (ops: seq<CloudOp>)
    ensures |ops| >= 1 && ops[|ops| - 1] == DeleteFolder("group_message_images/" + gid)
  {
    (if g.image != "" && Text.Contains(g.image, "cloudinary.com")
     then [DestroyImage(Text.PublicId(g.image, GroupImageFolder))] else [])
    + [DeleteFolder("group_message_images/" + gid)]
  }

  /** The group messages that survive deleting the messages of `gid`. */
  function PurgeGroupMessages(msgs: map<MsgId, GroupMessage>, gid: GroupId): (r: map<MsgId, GroupMessage>)
    ensures forall id :: id in r <==> id in msgs && msgs[id].groupId != gid
    ensures forall id :: id in r ==> r[id] == msgs[id]
  {
    map id | id in msgs && msgs[id].groupId != gid :: msgs[id]
  }

  /** Deleting a group: its messages, then the group itself, then its
      images on the image host; invitations and notifications that refer to
      it are kept. */
  function Dissolve(db: Db, gid: GroupId): (db': Db)
    requires gid in db.groups
    ensures db'.groups == db.groups - {gid}
  {
    db.(groups := db.groups - {gid},
        groupMessages := PurgeGroupMessages(db.groupMessages, gid),
        cloud := db.cloud + GroupImageCleanup(db.groups[gid], gid))
  }

  // ---------------------------------------------------------------------
  // Kick and set-as-admin
  // ---------------------------------------------------------------------

  /** Both run the same three checks in this order: the caller is the
      admin, the target is not the caller, the target is a member. */
  function AdminOnMember(g: Group, caller: UserId, target: UserId, selfError: Error): (o: Outcome<Error>)
    ensures o.Pass? <==> g.admin == caller && target != caller && target in g.members
    ensures g.admin != caller ==> o == Fail(NotAllowed)
    ensures g.admin == caller && target == caller ==> o == Fail(selfError)
    ensures g.admin == caller && target != caller && target !in g.members ==> o == Fail(NotMember)
  {
    if g.admin != caller then Fail(NotAllowed)
    else if target == caller then Fail(selfError)
    else if target !in g.members then Fail(NotMember)
    else Pass
  }

  /** The kicked group is saved, and the save refuses it outside the
      schema bounds. */
  function KickGroup(g: Group, caller: UserId, target: UserId): (r: Result<Group, Error>)
  {
    var checks := AdminOnMember(g, caller, target, CannotKickSelf);
    :- checks;
    var g' := g.(members := Without(g.members, target), joinedAt := g.joinedAt - {target});
    :- Need(SchemaBounds(g'), SchemaRejected);
    Ok(g')
  }

  /** A kick by the admin of another member is refused only by the save of
      a group outside the schema bounds; otherwise it removes exactly the
      target, never the admin, and keeps the group valid. */
  lemma KickSpec(g: Group, caller: UserId, target: UserId)
    requires Valid(g)
    ensures KickGroup(g, caller, target).Ok? <==>
              g.admin == caller && target != caller && target in g.members && SchemaBounds(g)
    ensures AdminOnMember(g, caller, target, CannotKickSelf).Fail? ==>
              KickGroup(g, caller, target) == Err(AdminOnMember(g, caller, target, CannotKickSelf).error)
    ensures AdminOnMember(g, caller, target, CannotKickSelf).Pass? && !SchemaBounds(g) ==>
              KickGroup(g, caller, target) == Err(SchemaRejected)
    ensures KickGroup(g, caller, target).Ok? ==>
              var g' := KickGroup(g, caller, target).value;
              && Valid(g') && g'.admin == g.admin
              && (forall m :: m in g'.members <==> m in g.members && m != target)
              && |g'.members| == |g.members| - 1
              && (forall m :: m in g'.joinedAt ==> g'.joinedAt[m] == g.joinedAt[m])
  {
    WithoutDistinct(g.members, target);
  }

  /** `kickFromGroupChat`: the kicked member is told by a notification. */
  function Kick(db: Db, caller: UserId, gid: GroupId, target: UserId, now: int): (r: Result<Db, Error>)
  {
    if gid !in db.groups then Err(GroupNotFound) else
    var g :- KickGroup(db.groups[gid], caller, target);
    Ok(db.(groups := db.groups[gid := g],
           notifications := db.notifications
             + [NewNotification(KickFromGroupChat, caller, target, gid, now)]))
  }

  /** The group with its new admin is saved, and the save refuses it
      outside the schema bounds. */
  function SetAdminGroup(g: Group, caller: UserId, member: UserId): (r: Result<Group, Error>)
  {
    var checks := AdminOnMember(g, caller, member, AlreadyAdmin);
    :- checks;
    var g' := g.(admin := member);
    :- Need(SchemaBounds(g'), SchemaRejected);
    Ok(g')
  }

  /** A hand-over by the admin to another member is refused only by the
      save of a group outside the schema bounds; otherwise it changes
      nothing but the admin, who is another member, so the group stays
      valid. */
  lemma SetAdminSpec(g: Group, caller: UserId, member: UserId)
    requires Valid(g)
    ensures SetAdminGroup(g, caller, member).Ok? <==>
              g.admin == caller && member != caller && member in g.members && SchemaBounds(g)
    ensures AdminOnMember(g, caller, member, AlreadyAdmin).Fail? ==>
              SetAdminGroup(g, caller, member) == Err(AdminOnMember(g, caller, member, AlreadyAdmin).error)
    ensures AdminOnMember(g, caller, member, AlreadyAdmin).Pass? && !SchemaBounds(g) ==>
              SetAdminGroup(g, caller, member) == Err(SchemaRejected)
    ensures SetAdminGroup(g, caller, member).Ok? ==>
              var g' := SetAdminGroup(g, caller, member).value;
              Valid(g') && g'.admin == member && g'.admin != g.admin
              && g' == g.(admin := member)
  {
  }

  /** `setAsAdmin`. */
  function SetAdmin(db: Db, caller: UserId, gid: GroupId, member: UserId): (r: Result<Db, Error>)
  {
    if gid !in db.groups then Err(GroupNotFound) else
    var g :- SetAdminGroup(db.groups[gid], caller, member);
    Ok(db.(groups := db.groups[gid := g]))
  }

  // ---------------------------------------------------------------------
  // Update and delete
  // ---------------------------------------------------------------------

  /** The request body of `updateGroupChat`; "" and 0 leave a field as it is. */
  datatype UpdateRequest = UpdateRequest(
    name: string,
    description: string,
    skill: string,
    maxMembers: int,
    image: string)

  /** The admin's update: skill, name and maxMembers are checked only when
      given; the description is never checked; each given (truthy) field
      replaces the stored one. The update query runs no schema validation. */
  function UpdateGroup(g: Group, caller: UserId, req: UpdateRequest): (r: Result<Group, Error>)
  {
    if g.admin != caller then Err(NotAllowed) else
    :- Need(req.skill == "" || ParseSkill(req.skill).Some?, InvalidSkill);
    :- Need(req.name == "" || 3 <= |Text.Trim(req.name)| <= 30, NameLength);
    :- Need(req.name == "" || Text.NameRegex(Text.Trim(req.name), true), InvalidName);
    :- Need(req.maxMembers == 0 || 2 <= req.maxMembers <= 30, MaxMembersRange);
    Ok(g.(name := if req.name != "" then req.name else g.name,
          description := if req.description != "" then req.description else g.description,
          skill := if req.skill != "" then ParseSkill(req.skill).value else g.skill,
          maxMembers := if req.maxMembers != 0 then req.maxMembers else g.maxMembers,
          image := if req.image != "" then req.image else g.image))
  }

  /** An update keeps membership and the admin; each field ends up either
      unchanged or equal to the request's value, and a name that is set
      passes the name rule. */
  lemma UpdateSpec(g: Group, caller: UserId, req: UpdateRequest)
    ensures UpdateGroup(g, caller, req).Ok? ==>
              var g' := UpdateGroup(g, caller, req).value;
              && g'.members == g.members && g'.joinedAt == g.joinedAt && g'.admin == g.admin
              && g'.creator == g.creator && g'.lastMessage == g.lastMessage
              && (g'.name == g.name || (g'.name == req.name && NameAccepted(req.name)))
              && (req.name == "" ==> g'.name == g.name)
              && (g'.maxMembers == g.maxMembers || 2 <= g'.maxMembers <= 30)
              && (req.description != "" ==> g'.description == req.description)
              && (Valid(g) ==> Valid(g'))
    ensures g.admin != caller ==> UpdateGroup(g, caller, req) == Err(NotAllowed)
  {
  }

  /** `updateGroupChat`: a new image replaces a hosted old one, which is
      destroyed first. */
  function Update(db: Db, caller: UserId, gid: GroupId, req: UpdateRequest): (r: Result<Db, Error>)
  {
    if gid !in db.groups then Err(GroupNotFound) else
    var prior := db.groups[gid];
    var g :- UpdateGroup(prior, caller, req);
    var cleanup := if req.image != "" && prior.image != "" && Text.Contains(prior.image, "cloudinary.com")
                   then [DestroyImage(Text.PublicId(prior.image, GroupImageFolder))] else [];
    Ok(db.(groups := db.groups[gid := g], cloud := db.cloud + cleanup))
  }

  /** maxMembers is not a bound on the member count: an update can lower it
      below the count, and the equality test of join then lets one more
      member in. */
  lemma MaxMembersIsNotABound()
    ensures var g := Group("Court", "", "", 3, "s", Casual, ["a", "b", "c"], "a", "a", "l",
                           map["a" := 1, "b" := 2, "c" := 3], None);
            && Valid(g) && SchemaBounds(g)
            && UpdateGroup(g, "a", UpdateRequest("", "", "", 2, "")).Ok?
            && var g2 := UpdateGroup(g, "a", UpdateRequest("", "", "", 2, "")).value;
            && |g2.members| > g2.maxMembers
            && JoinGroup(g2, "d", 4).Ok?
            && |JoinGroup(g2, "d", 4).value.members| == 4 > g2.maxMembers
  {
    var g := Group("Court", "", "", 3, "s", Casual, ["a", "b", "c"], "a", "a", "l",
                   map["a" := 1, "b" := 2, "c" := 3], None);
    assert (set m | m in g.members) == {"a", "b", "c"};
  }

  /** The update query stores a description the schema would refuse. */
  lemma UpdateSkipsSchema(g: Group, d: string)
    requires Valid(g) && SchemaBounds(g) && |d| > 300
    ensures UpdateGroup(g, g.admin, UpdateRequest("", d, "", 0, "")).Ok?
    ensures !SchemaBounds(UpdateGroup(g, g.admin, UpdateRequest("", d, "", 0, "")).value)
  {
  }

  /** A group the update query took out of the schema bounds can no longer
      be saved: a join, a member's leave, a kick and a hand-over on it are
      all refused, so its membership is frozen. */
  lemma UpdatedGroupRefusesSaves(g: Group, d: string, joiner: UserId, member: UserId, now: int)
    requires Valid(g) && SchemaBounds(g) && |d| > 300
    requires joiner !in g.members && |g.members| != g.maxMembers
    requires member in g.members && member != g.admin
    ensures UpdateGroup(g, g.admin, UpdateRequest("", d, "", 0, "")).Ok?
    ensures var g2 := UpdateGroup(g, g.admin, UpdateRequest("", d, "", 0, "")).value;
            && JoinGroup(g2, joiner, now) == Err(SchemaRejected)
            && LeaveGroup(g2, member) == Err(SchemaRejected)
            && KickGroup(g2, g.admin, member) == Err(SchemaRejected)
            && SetAdminGroup(g2, g.admin, member) == Err(SchemaRejected)
  {
    UpdateSkipsSchema(g, d);
    var g2 := UpdateGroup(g, g.admin, UpdateRequest("", d, "", 0, "")).value;
    LeaveRemains(g2, member);
  }

  /** The weaker fact that does hold: a join never takes a group that has
      exactly maxMembers members, and starting from a group within its bound,
      joins keep it within its bound. */
  lemma JoinRespectsBoundFromBelow(g: Group, caller: UserId, now: int)
    requires |g.members| <= g.maxMembers
    ensures JoinGroup(g, caller, now).Ok? ==> |JoinGroup(g, caller, now).value.members| <= g.maxMembers
  {
  }

  /** `deleteGroupChat`: only the admin may delete. */
  function Delete(db: Db, caller: UserId, gid: GroupId): (r: Result<Db, Error>)
    ensures r.Ok? ==> gid in db.groups && db.groups[gid].admin == caller && r.value == Dissolve(db, gid)
    ensures gid in db.groups && db.groups[gid].admin != caller ==> r == Err(NotAllowed)
  {
    if gid !in db.groups then Err(GroupNotFound) else
    :- Need(db.groups[gid].admin == caller, NotAllowed);
    Ok(Dissolve(db, gid))
  }

  // ---------------------------------------------------------------------
  // The store invariant
  // ---------------------------------------------------------------------

  /** Replacing or removing one group keeps the others valid. */
  lemma AllValidAfterSet(groups: map<GroupId, Group>, gid: GroupId, g: Group)
    requires AllValid(groups) && Valid(g)
    ensures AllValid(groups[gid := g])
  {
  }

  /** Every group handler keeps every stored group valid. */
  lemma CreateKeepsAllValid(db: Db, caller: UserId, gid: GroupId, req: CreateRequest, now: int)
    requires AllValid(db.groups) && Create(db, caller, gid, req, now).Ok?
    ensures AllValid(Create(db, caller, gid, req, now).value.groups)
  {
    CreatedGroup(db, caller, gid, req, now);
  }

  lemma JoinKeepsAllValid(db: Db, caller: UserId, gid: GroupId, invitationId: RecordId, now: int,
                          online: set<UserId>, reply: Push.ProviderReply)
    requires AllValid(db.groups) && Join(db, caller, gid, invitationId, now, online, reply).Ok?
    ensures AllValid(Join(db, caller, gid, invitationId, now, online, reply).value.groups)
  {
    JoinKeepsValid(db.groups[gid], caller, now);
    AllValidAfterSet(db.groups, gid, JoinGroup(db.groups[gid], caller, now).value);
  }

  lemma LeaveKeepsAllValid(db: Db, caller: UserId, gid: GroupId)
    requires AllValid(db.groups) && Leave(db, caller, gid).Ok?
    ensures AllValid(Leave(db, caller, gid).value.groups)
  {
    var g := db.groups[gid];
    LeaveDissolvesExactly(g, caller);
    if g.admin == caller && g.members == [caller] {
      assert Leave(db, caller, gid).value.groups == db.groups - {gid};
    } else {
      LeaveRemains(g, caller);
      var g' := LeaveGroup(g, caller).value.group;
      assert Leave(db, caller, gid).value.groups == db.groups[gid := g'];
      AllValidAfterSet(db.groups, gid, g');
    }
  }

  lemma KickKeepsAllValid(db: Db, caller: UserId, gid: GroupId, target: UserId, now: int)
    requires AllValid(db.groups) && Kick(db, caller, gid, target, now).Ok?
    ensures AllValid(Kick(db, caller, gid, target, now).value.groups)
  {
    KickSpec(db.groups[gid], caller, target);
  }

  lemma SetAdminKeepsAllValid(db: Db, caller: UserId, gid: GroupId, member: UserId)
    requires AllValid(db.groups) && SetAdmin(db, caller, gid, member).Ok?
    ensures AllValid(SetAdmin(db, caller, gid, member).value.groups)
  {
    SetAdminSpec(db.groups[gid], caller, member);
  }

  lemma UpdateKeepsAllValid(db: Db, caller: UserId, gid: GroupId, req: UpdateRequest)
    requires AllValid(db.groups) && Update(db, caller, gid, req).Ok?
    ensures AllValid(Update(db, caller, gid, req).value.groups)
  {
    UpdateSpec(db.groups[gid], caller, req);
  }

  // ---------------------------------------------------------------------
  // Invite and report
  // ---------------------------------------------------------------------

  /** Storing an invitation and its notification, then pushing to the
      receiver. */
  function StoreInvitation(db: Db, caller: UserId, gid: GroupId, receiver: UserId, invId: RecordId,
                           now: int, online: set<UserId>, reply: Push.ProviderReply): (r: Result<Db, Error>)
  {
    if invId in db.invitations then Err(DuplicateKey) else
    Ok(db.(invitations := db.invitations[invId := Invitation(caller, receiver, gid, Pending)],
           notifications := db.notifications
             + [NewNotification(GroupInvitationSent, caller, receiver, invId, now)],
           users := Push.PushTo(db.users, caller, receiver, online, reply)))
  }

  /** What the client is answered together with the store it leaves. */
  datatype Answered = Answered(db: Db, error: Option<Error>)

  /** `inviteToGroupChat` as written: when the receiver is already a
      member the handler answers 400 but does not return, so it still
      stores the invitation and its notification and pushes. */
  function InviteAsWritten(db: Db, caller: UserId, gid: GroupId, receiver: UserId, invId: RecordId,
                           now: int, online: set<UserId>, reply: Push.ProviderReply): (r: Result<Answered, Error>)
  {
    if receiver == "" then Err(UserIdRequired) else
    :- Need(gid in db.groups, GroupNotFound);
    :- Need(caller in db.groups[gid].members, NotMember);
    var stored :- StoreInvitation(db, caller, gid, receiver, invId, now, online, reply);
    Ok(Answered(stored, if receiver in db.groups[gid].members then Some(AlreadyMember) else None))
  }

  /** The invitation handler with the missing `return`: a member cannot be
      invited. */
  function Invite(db: Db, caller: UserId, gid: GroupId, receiver: UserId, invId: RecordId,
                  now: int, online: set<UserId>, reply: Push.ProviderReply): (r: Result<Db, Error>)
  {
    if receiver == "" then Err(UserIdRequired) else
    :- Need(gid in db.groups, GroupNotFound);
    :- Need(caller in db.groups[gid].members, NotMember);
    :- Need(receiver !in db.groups[gid].members, AlreadyMember);
    StoreInvitation(db, caller, gid, receiver, invId, now, online, reply)
  }

  /** An invitation is only sent by a member to a non-member: it adds one
      pending invitation and one notification for the receiver, and leaves
      groups untouched. */
  lemma InviteSpec(db: Db, caller: UserId, gid: GroupId, receiver: UserId, invId: RecordId,
                   now: int, online: set<UserId>, reply: Push.ProviderReply)
    ensures var r := Invite(db, caller, gid, receiver, invId, now, online, reply);
            r.Ok? ==>
              && gid in db.groups && caller in db.groups[gid].members
              && receiver != "" && receiver !in db.groups[gid].members
              && invId !in db.invitations
              && r.value.invitations == db.invitations[invId := Invitation(caller, receiver, gid, Pending)]
              && |r.value.notifications| == |db.notifications| + 1
              && r.value.notifications[|db.notifications|].receiver == receiver
              && r.value.groups == db.groups
    ensures gid in db.groups && caller in db.groups[gid].members && receiver != ""
            && receiver in db.groups[gid].members ==>
              Invite(db, caller, gid, receiver, invId, now, online, reply) == Err(AlreadyMember)
  {
  }

  /** As written, inviting a member answers "already in this group" yet
      stores a pending invitation for that member. */
  lemma InviteAsWrittenInvitesMembers(db: Db, caller: UserId, gid: GroupId, receiver: UserId,
                                      invId: RecordId, now: int, online: set<UserId>,
                                      reply: Push.ProviderReply)
    requires gid in db.groups && caller in db.groups[gid].members && receiver != ""
    requires receiver in db.groups[gid].members && invId !in db.invitations
    ensures var r := InviteAsWritten(db, caller, gid, receiver, invId, now, online, reply);
            && r.Ok? && r.value.error == Some(AlreadyMember)
            && invId in r.value.db.invitations
            && r.value.db.invitations[invId].receiver == receiver
            && r.value.db.invitations[invId].status == Pending
  {
  }

  datatype ReportRequest = ReportRequest(reason: string, description: string, image: string)

  /** `reportGroupChat`: a member other than the admin reports the group for
      one of the listed reasons, with a description of at most 300. */
  function Report(db: Db, caller: UserId, gid: GroupId, req: ReportRequest, reportId: RecordId): (r: Result<Db, Error>)
  {
    if gid !in db.groups then Err(GroupNotFound) else
    :- Need(caller != db.groups[gid].admin, CannotReportOwnGroup);
    :- Need(caller in db.groups[gid].members, NotMember);
    :- Need(req.reason != "", ReasonRequired);
    :- Need(req.reason in GroupReportReasons, InvalidReason);
    :- Need(!(req.description != "" && |req.description| > 300), DescriptionTooLong);
    :- Need(reportId !in db.reports, DuplicateKey);
    Ok(db.(reports := db.reports[reportId := Records.Report(GroupChatReport, caller, gid, req.reason,
                                                             req.description, OrNull(req.image), false)]))
  }

  /** A stored group report comes from a non-admin member, names one of the
      three reasons, has a description of at most 300 characters, and is not
      yet acknowledged; nothing else in the store changes. */
  lemma ReportSpec(db: Db, caller: UserId, gid: GroupId, req: ReportRequest, reportId: RecordId)
    ensures Report(db, caller, gid, req, reportId).Ok? ==>
              var db' := Report(db, caller, gid, req, reportId).value;
              && gid in db.groups && caller in db.groups[gid].members && caller != db.groups[gid].admin
              && reportId in db'.reports && db'.reports.Keys == db.reports.Keys + {reportId}
              && var rep := db'.reports[reportId];
              && rep.reason in GroupReportReasons && |rep.description| <= 300
              && rep.kind == GroupChatReport && rep.reportedId == gid && rep.reportBy == caller
              && !rep.isAcknowledged
              && db' == db.(reports := db'.reports)
  {
  }
}
