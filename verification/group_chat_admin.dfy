/** The admin panel's group-chat handlers: the reported-group list, the
    admin update of name and picture, acknowledging a report, and the admin
    delete that tells the members. */
module GroupChatAdmin {
  import opened Wrappers
  import opened Records
  import opened Seqs
  import Text
  import GroupChat

  datatype Error = GroupNotFound | InvalidName | ReportNotFound

  /** The reported ids of the group-chat reports, in collection order,
      duplicates kept (`getReportedGroupChats`). */
  function ReportedGroupIds(reports: seq<Report>): (ids: seq<RecordId>)
    ensures |ids| <= |reports|
  {
    if reports == [] then []
    else (if reports[0].kind == GroupChatReport then [reports[0].reportedId] else [])
         + ReportedGroupIds(reports[1..])
  }

  /** How many group-chat reports name `id`. */
  function ReportsAgainst(reports: seq<Report>, id: RecordId): nat {
    if reports == [] then 0
    else (if reports[0].kind == GroupChatReport && reports[0].reportedId == id then 1 else 0)
         + ReportsAgainst(reports[1..], id)
  }

  /** A group appears in the list once per report against it; user reports
      contribute nothing. */
  lemma {:induction false} ReportedGroupIdsCount(reports: seq<Report>, id: RecordId)
    ensures multiset(ReportedGroupIds(reports))[id] == ReportsAgainst(reports, id)
  {
    if reports != [] {
      ReportedGroupIdsCount(reports[1..], id);
    }
  }

  /** `updateGroupChatAdmin`: a given name must match the name regular
      expression once trimmed (no apostrophes, no length check); a given
      picture replaces the old one, which is destroyed when hosted. */
  function UpdateAdmin(db: Db, gid: GroupId, name: string, image: string): (r: Result<Db, Error>)
  {
    if gid !in db.groups then Err(GroupNotFound) else
    var g := db.groups[gid];
    :- Need(name == "" || Text.NameRegex(Text.Trim(name), false), InvalidName);
    var cleanup := if image != "" && g.image != "" && Text.Contains(g.image, "cloudinary.com")
                   then [DestroyImage(Text.PublicId(g.image, GroupChat.GroupImageFolder))] else [];
    var g' := g.(name := if name != "" then name else g.name,
                 image := if image != "" then image else g.image);
    Ok(db.(groups := db.groups[gid := g'], cloud := db.cloud + cleanup))
  }

  /** The admin update touches only the name and picture of one group, so
      every group stays valid; the new name is either the old one or a
      given name that passes the regular expression once trimmed. */
  lemma UpdateAdminSpec(db: Db, gid: GroupId, name: string, image: string)
    requires GroupChat.AllValid(db.groups)
    ensures UpdateAdmin(db, gid, name, image).Ok? ==>
              var groups := UpdateAdmin(db, gid, name, image).value.groups;
              && GroupChat.AllValid(groups)
              && groups.Keys == db.groups.Keys
              && groups[gid] == db.groups[gid].(name := groups[gid].name, image := groups[gid].image)
              && (groups[gid].name == db.groups[gid].name
                  || (groups[gid].name == name && Text.NameRegex(Text.Trim(name), false)))
              && (image != "" ==> groups[gid].image == image)
  {
    if UpdateAdmin(db, gid, name, image).Ok? {
      var g := db.groups[gid];
      var g' := UpdateAdmin(db, gid, name, image).value.groups[gid];
      assert GroupChat.Valid(g');
      GroupChat.AllValidAfterSet(db.groups, gid, g');
    }
  }

  /** Unlike the group admin's update, the admin panel puts no length bound
      on the name: any well-formed name longer than 30 is stored, breaking
      the schema bound. */
  lemma UpdateAdminSkipsLength(db: Db, gid: GroupId, name: string)
    requires gid in db.groups && Text.NameShape(name, false) && |name| > 30
    ensures UpdateAdmin(db, gid, name, "").Ok?
    ensures UpdateAdmin(db, gid, name, "").value.groups[gid].name == name
    ensures !GroupChat.SchemaBounds(UpdateAdmin(db, gid, name, "").value.groups[gid])
  {
    Text.TrimFixesTrimmed(name);
    Text.NameRegexMeaning(name, false);
  }

  /** `acknowledgeGroupChatReport`. */
  function Acknowledge(db: Db, reportId: RecordId): (r: Result<Db, Error>)
  {
    if reportId !in db.reports then Err(ReportNotFound) else
    Ok(db.(reports := db.reports[reportId := db.reports[reportId].(isAcknowledged := true)]))
  }

  /** Acknowledging marks exactly that report, changes nothing else about
      it, and doing it twice is doing it once. */
  lemma AcknowledgeSpec(db: Db, reportId: RecordId)
    ensures Acknowledge(db, reportId).Ok? <==> reportId in db.reports
    ensures Acknowledge(db, reportId).Ok? ==>
              var db' := Acknowledge(db, reportId).value;
              && db'.reports.Keys == db.reports.Keys
              && db'.reports[reportId].isAcknowledged
              && db'.reports[reportId].(isAcknowledged := false) == db.reports[reportId].(isAcknowledged := false)
              && (forall id :: id in db.reports && id != reportId ==> db'.reports[id] == db.reports[id])
              && Acknowledge(db', reportId) == Ok(db')
  {
    if reportId in db.reports {
      var db' := Acknowledge(db, reportId).value;
      var r := db'.reports[reportId];
      assert r.(isAcknowledged := true) == r;
      assert db'.reports[reportId := r] == db'.reports;
    }
  }

  /** One deletion notice for each member other than the acting admin. */
  function DeletionNotices(members: seq<UserId>, actor: UserId, gid: GroupId, now: int): (ns: seq<Notification>)
  {
    if members == [] then []
    else (if members[0] != actor
          then [NewNotification(GroupChatDeletion, actor, members[0], gid, now)] else [])
         + DeletionNotices(members[1..], actor, gid, now)
  }

  /** The notices go, in member order, to every member except the actor,
      from the actor, about the deleted group. */
  lemma {:induction false} DeletionNoticesSpec(members: seq<UserId>, actor: UserId, gid: GroupId, now: int)
    ensures |DeletionNotices(members, actor, gid, now)| == |Without(members, actor)|
    ensures var ns := DeletionNotices(members, actor, gid, now);
            forall i :: 0 <= i < |ns| ==>
              && ns[i].receiver == Without(members, actor)[i]
              && ns[i].sender == actor && ns[i].kind == GroupChatDeletion
              && ns[i].relatedId == gid && !ns[i].isRead
  {
    if members != [] {
      DeletionNoticesSpec(members[1..], actor, gid, now);
    }
  }

  /** `deleteGroupChatAdmin`: no admin check; the group is removed as the
      group admin's delete removes it, and the members are told. */
  function DeleteAdmin(db: Db, actor: UserId, gid: GroupId, now: int): (r: Result<Db, Error>)
  {
    if gid !in db.groups then Err(GroupNotFound) else
    var g := db.groups[gid];
    var db' := GroupChat.Dissolve(db, gid);
    Ok(db'.(notifications := db.notifications + DeletionNotices(g.members, actor, gid, now)))
  }

  /** Whoever acts, the admin delete succeeds on any existing group and
      leaves the store the group admin's own delete leaves, plus the
      notices. */
  lemma DeleteAdminIsGroupDeletePlusNotices(db: Db, actor: UserId, gid: GroupId, now: int)
    ensures DeleteAdmin(db, actor, gid, now).Ok? <==> gid in db.groups
    ensures gid in db.groups ==>
              var admin := db.groups[gid].admin;
              && GroupChat.Delete(db, admin, gid).Ok?
              && DeleteAdmin(db, actor, gid, now).value
                 == GroupChat.Delete(db, admin, gid).value.(
                      notifications := db.notifications
                        + DeletionNotices(db.groups[gid].members, actor, gid, now))
  {
  }
}
