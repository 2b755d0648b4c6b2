/** The admin panel's user handlers: the user list, suspending and
    reinstating accounts, acknowledging a report, the dashboard figures and
    the admin's own profile update. */
module UserAdmin {
  import opened Wrappers
  import opened Records
  import opened Seqs
  import Text
  import Users
  import Auth
  import Presence
  import GroupChatAdmin

  /** The name the deactivation job gives to a removed account. */
  const DeletedName := "Deleted User"

  // ---------------------------------------------------------------------
  // The user list
  // ---------------------------------------------------------------------

  /** `getAllUsers`: every user whose name is not the removed-account
      name. */
  function Listing(users: map<UserId, User>): (ids: set<UserId>)
    ensures ids <= users.Keys
  {
    set id | id in users && users[id].name != DeletedName
  }

  /** The list holds every account except the removed ones: adding or
      changing an account that is not removed puts it in the list, and
      giving an account the removed-account name takes it out. */
  lemma ListingTracksName(users: map<UserId, User>, id: UserId, u: User)
    ensures id in Listing(users[id := u]) <==> u.name != DeletedName
    ensures Listing(users[id := u]) - {id} == Listing(users) - {id}
  {
  }

  // ---------------------------------------------------------------------
  // Suspension and report acknowledgement
  // ---------------------------------------------------------------------

  /** `suspendAccount` (flag true) and `cancelAccountSuspension` (flag
      false): the update of the stored user. */
  function SetSuspended(db: Db, id: UserId, flag: bool): (r: Result<Db, Users.Error>)
  {
    if id !in db.users then Err(Users.UserNotFound) else
    Ok(db.(users := db.users[id := db.users[id].(isSuspended := flag)]))
  }

  /** Setting the flag succeeds exactly for a stored user, sets that
      user's flag and nothing else, and setting it again changes nothing;
      reinstating a suspended account that was not suspended before gives
      back the original store. */
  lemma SetSuspendedSpec(db: Db, id: UserId, flag: bool)
    ensures var r := SetSuspended(db, id, flag);
            && (r.Ok? <==> id in db.users)
            && (r.Ok? ==>
                  && r.value.users.Keys == db.users.Keys
                  && r.value.users[id].isSuspended == flag
                  && r.value.users[id].(isSuspended := db.users[id].isSuspended) == db.users[id]
                  && (forall u :: u in db.users && u != id ==> r.value.users[u] == db.users[u])
                  && r.value == db.(users := r.value.users)
                  && SetSuspended(r.value, id, flag) == r)
            && (id in db.users && !db.users[id].isSuspended ==>
                  SetSuspended(SetSuspended(db, id, true).value, id, false) == Ok(db))
  {
    if id in db.users {
      var db' := SetSuspended(db, id, flag).value;
      assert db'.users[id := db'.users[id].(isSuspended := flag)] == db'.users;
      if !db.users[id].isSuspended {
        var s := SetSuspended(db, id, true).value;
        assert s.users[id := s.users[id].(isSuspended := false)] == db.users;
      }
    }
  }

  /** A suspended account can no longer log in, whatever its password;
      the refusal names the suspension unless the account is also
      deactivated. */
  lemma SuspendedCannotLogin(db: Db, id: UserId, email: string, password: string, matches: bool)
    requires id in db.users && email != "" && password != ""
    ensures var db' := SetSuspended(db, id, true).value;
            var r := Auth.Login(db', email, password, Some(id), matches);
            && r.Err?
            && (matches && !db.users[id].isDeactivate ==> r == Err(Auth.Suspended))
  {
  }

  /** What a handler writes to its response: the statuses it tries to
      send, in order, and whether an exception escapes it. Only the first
      write reaches the client; writing to a response that was already
      sent throws. */
  datatype Handled = Handled(db: Db, writes: seq<int>, escapes: bool)

  /** The shape of the three handlers as written: a missing record gets a
      404 but the handler goes on to the 200 write, which throws because
      the response was sent; its `catch` then tries a 500, which throws
      again and escapes the handler. */
  function MissingReturn<E>(db: Db, r: Result<Db, E>): (h: Handled)
  {
    if r.Ok? then Handled(r.value, [200], false)
    else Handled(db, [404, 200, 500], true)
  }

  /** The evidently intended shape: one answer, 404 for a missing record
      and 200 otherwise. */
  function Answered<E>(db: Db, r: Result<Db, E>): (h: Handled)
  {
    if r.Ok? then Handled(r.value, [200], false)
    else Handled(db, [404], false)
  }

  /** Both shapes store the same and the client sees the same status; the
      written shape differs by making further writes and throwing out of
      the handler, exactly when the record is missing, while the intended
      one writes once and never throws. */
  lemma MissingReturnVersusAnswered<E>(db: Db, r: Result<Db, E>)
    ensures var w := MissingReturn(db, r);
            var a := Answered(db, r);
            && w.db == a.db && |w.writes| >= 1 && |a.writes| == 1
            && w.writes[0] == a.writes[0]
            && (r.Err? <==> w.escapes)
            && (r.Err? <==> |w.writes| > 1)
            && !a.escapes
            && (a.writes[0] == 200 <==> r.Ok?)
  {
  }

  /** `suspendAccount` as written. */
  function SuspendAccountAsWritten(db: Db, id: UserId): (h: Handled)
  {
    MissingReturn(db, SetSuspended(db, id, true))
  }

  /** `cancelAccountSuspension` as written. */
  function CancelSuspensionAsWritten(db: Db, id: UserId): (h: Handled)
  {
    MissingReturn(db, SetSuspended(db, id, false))
  }

  /** `acknowledgeReport` as written; the update is the one the group-chat
      report handler makes, for a report of either kind. */
  function AcknowledgeReportAsWritten(db: Db, reportId: RecordId): (h: Handled)
  {
    MissingReturn(db, GroupChatAdmin.Acknowledge(db, reportId))
  }

  /** `suspendAccount` with the missing `return` restored. */
  function SuspendAccount(db: Db, id: UserId): (h: Handled)
  {
    Answered(db, SetSuspended(db, id, true))
  }

  /** `cancelAccountSuspension` with the missing `return` restored. */
  function CancelSuspension(db: Db, id: UserId): (h: Handled)
  {
    Answered(db, SetSuspended(db, id, false))
  }

  /** `acknowledgeReport` with the missing `return` restored. */
  function AcknowledgeReport(db: Db, reportId: RecordId): (h: Handled)
  {
    Answered(db, GroupChatAdmin.Acknowledge(db, reportId))
  }

  /** For an id that names no user, the written handlers try three
      responses and throw out of the handler, while the intended ones
      answer 404 once; for a stored user both answer 200 once with the
      same store. */
  lemma SuspensionHandlersAsWritten(db: Db, id: UserId)
    ensures id !in db.users ==>
              && SuspendAccountAsWritten(db, id) == Handled(db, [404, 200, 500], true)
              && CancelSuspensionAsWritten(db, id) == Handled(db, [404, 200, 500], true)
              && SuspendAccount(db, id) == Handled(db, [404], false)
              && CancelSuspension(db, id) == Handled(db, [404], false)
    ensures id in db.users ==>
              && SuspendAccountAsWritten(db, id) == SuspendAccount(db, id)
              && CancelSuspensionAsWritten(db, id) == CancelSuspension(db, id)
              && SuspendAccount(db, id).writes == [200]
              && SuspendAccount(db, id).db.users[id].isSuspended
              && !CancelSuspension(db, id).db.users[id].isSuspended
  {
  }

  /** The same for an unknown report id. */
  lemma AcknowledgeReportAsWrittenMissing(db: Db, reportId: RecordId)
    ensures reportId !in db.reports ==>
              && AcknowledgeReportAsWritten(db, reportId) == Handled(db, [404, 200, 500], true)
              && AcknowledgeReport(db, reportId) == Handled(db, [404], false)
    ensures reportId in db.reports ==>
              && AcknowledgeReportAsWritten(db, reportId) == AcknowledgeReport(db, reportId)
              && AcknowledgeReport(db, reportId).db.reports[reportId].isAcknowledged
  {
  }

  // ---------------------------------------------------------------------
  // The dashboard
  // ---------------------------------------------------------------------

  /** One row of the per-sport figures: the sport type's name, how many
      group chats play it, and how many distinct users are members of
      those chats. */
  datatype SportRow = SportRow(sportType: string, count: nat, totalUsersInGroups: nat)

  datatype Dashboard = Dashboard(
    totalUsers: nat,
    onlineUsers: nat,
    totalLocations: nat,
    totalMessages: nat,
    groupChatsPerSportType: seq<SportRow>)

  /** The group chats that play sport type `id`. */
  function ChatsOf(db: Db, id: RecordId): (gs: set<GroupId>)
    ensures forall g :: g in gs <==> g in db.groups && db.groups[g].sportType == id
  {
    set g | g in db.groups && db.groups[g].sportType == id
  }

  /** The users who are members of at least one chat of sport type `id`. */
  function PlayersOf(db: Db, id: RecordId): (us: set<UserId>)
    ensures forall u :: u in us <==> exists g :: g in ChatsOf(db, id) && u in db.groups[g].members
  {
    set g, u | g in db.groups && db.groups[g].sportType == id && u in db.groups[g].members :: u
  }

  /** The aggregation's row for one sport type: a lookup of the chats with
      that sport type, their number, and the size of the union of their
      member lists. */
  function RowOf(db: Db, id: RecordId): (row: SportRow)
    requires id in db.sportTypes
  {
    SportRow(db.sportTypes[id].name, |ChatsOf(db, id)|, |PlayersOf(db, id)|)
  }

  /** The rows in the collection's order `order`. */
  function Rows(db: Db, order: seq<RecordId>): (rows: seq<SportRow>)
    requires forall i :: 0 <= i < |order| ==> order[i] in db.sportTypes
    ensures |rows| == |order|
    ensures forall i :: 0 <= i < |order| ==> rows[i] == RowOf(db, order[i])
  {
    if order == [] then [] else [RowOf(db, order[0])] + Rows(db, order[1..])
  }

  predicate Ascending(rows: seq<SportRow>) {
    forall i, j :: 0 <= i < j < |rows| ==> rows[i].totalUsersInGroups <= rows[j].totalUsersInGroups
  }

  /** Puts `row` into an ascending sequence after the rows with as many
      users. */
  function InsertRow(row: SportRow, rows: seq<SportRow>): (r: seq<SportRow>)
  {
    if rows == [] then [row]
    else if row.totalUsersInGroups <= rows[0].totalUsersInGroups then [row] + rows
    else [rows[0]] + InsertRow(row, rows[1..])
  }

  /** `.sort("totalUsersInGroups")`: fewest users first. */
  function SortRows(rows: seq<SportRow>): (r: seq<SportRow>)
  {
    if rows == [] then [] else InsertRow(rows[0], SortRows(rows[1..]))
  }

  /** Inserting keeps every row and adds `row` once. */
  lemma {:induction false} InsertRowKeeps(row: SportRow, rows: seq<SportRow>)
    ensures multiset(InsertRow(row, rows)) == multiset(rows) + multiset{row}
  {
    if rows != [] {
      assert rows == [rows[0]] + rows[1..];
      if row.totalUsersInGroups > rows[0].totalUsersInGroups {
        InsertRowKeeps(row, rows[1..]);
      }
    }
  }

  /** Inserting above a bound every row already meets keeps it. */
  lemma {:induction false} InsertRowAbove(row: SportRow, rows: seq<SportRow>, bound: int)
    requires bound <= row.totalUsersInGroups
    requires forall k :: 0 <= k < |rows| ==> bound <= rows[k].totalUsersInGroups
    ensures forall k :: 0 <= k < |InsertRow(row, rows)| ==> bound <= InsertRow(row, rows)[k].totalUsersInGroups
  {
    if rows != [] && row.totalUsersInGroups > rows[0].totalUsersInGroups {
      InsertRowAbove(row, rows[1..], bound);
    }
  }

  lemma {:induction false} InsertRowSpec(row: SportRow, rows: seq<SportRow>)
    requires Ascending(rows)
    ensures Ascending(InsertRow(row, rows))
    ensures multiset(InsertRow(row, rows)) == multiset(rows) + multiset{row}
  {
    InsertRowKeeps(row, rows);
    if rows != [] && row.totalUsersInGroups > rows[0].totalUsersInGroups {
      InsertRowSpec(row, rows[1..]);
      InsertRowAbove(row, rows[1..], rows[0].totalUsersInGroups);
    }
  }

  /** The sort orders by the number of users and keeps exactly the same
      rows. */
  lemma {:induction false} SortRowsSpec(rows: seq<SportRow>)
    ensures Ascending(SortRows(rows))
    ensures multiset(SortRows(rows)) == multiset(rows)
  {
    if rows != [] {
      SortRowsSpec(rows[1..]);
      InsertRowSpec(rows[0], SortRows(rows[1..]));
      assert rows == [rows[0]] + rows[1..];
      assert multiset(rows) == multiset{rows[0]} + multiset(rows[1..]);
    }
  }

  /** `data.filter(row => row.sportType !== "all")`. */
  function DropAll(rows: seq<SportRow>): (r: seq<SportRow>)
  {
    if rows == [] then []
    else (if rows[0].sportType != "all" then [rows[0]] else []) + DropAll(rows[1..])
  }

  /** The filter keeps exactly the rows not named "all", as often as they
      occur. */
  lemma {:induction false} DropAllCount(rows: seq<SportRow>, row: SportRow)
    ensures multiset(DropAll(rows))[row] == if row.sportType == "all" then 0 else multiset(rows)[row]
  {
    if rows != [] {
      DropAllCount(rows[1..], row);
      assert rows == [rows[0]] + rows[1..];
      assert multiset(rows) == multiset{rows[0]} + multiset(rows[1..]);
    }
  }

  /** The filter keeps only rows it was given. */
  lemma {:induction false} DropAllWithin(rows: seq<SportRow>)
    ensures forall i :: 0 <= i < |DropAll(rows)| ==> DropAll(rows)[i] in rows
  {
    if rows != [] {
      DropAllWithin(rows[1..]);
      var t := DropAll(rows[1..]);
      assert forall i :: 0 <= i < |t| ==> t[i] in rows[1..];
    }
  }

  /** A row no larger than every row of an ascending sequence can lead
      it. */
  lemma ConsAscending(row: SportRow, t: seq<SportRow>)
    requires Ascending(t)
    requires forall k :: 0 <= k < |t| ==> row.totalUsersInGroups <= t[k].totalUsersInGroups
    ensures Ascending([row] + t)
  {
    var r := [row] + t;
    forall i, j | 0 <= i < j < |r| ensures r[i].totalUsersInGroups <= r[j].totalUsersInGroups {
      if i == 0 {
        assert r[j] == t[j - 1];
      } else {
        assert r[i] == t[i - 1] && r[j] == t[j - 1];
      }
    }
  }

  /** The tail of an ascending sequence is ascending. */
  lemma AscendingTail(rows: seq<SportRow>)
    requires Ascending(rows) && rows != []
    ensures Ascending(rows[1..])
  {
    forall i, j | 0 <= i < j < |rows[1..]|
      ensures rows[1..][i].totalUsersInGroups <= rows[1..][j].totalUsersInGroups
    {
      assert rows[1..][i] == rows[i + 1] && rows[1..][j] == rows[j + 1];
    }
  }

  /** The filter keeps the order, so an ascending sequence stays
      ascending. */
  lemma {:induction false} DropAllAscending(rows: seq<SportRow>)
    requires Ascending(rows)
    ensures Ascending(DropAll(rows))
  {
    if rows != [] {
      AscendingTail(rows);
      DropAllAscending(rows[1..]);
      var t := DropAll(rows[1..]);
      if rows[0].sportType != "all" {
        assert DropAll(rows) == [rows[0]] + t;
        DropAllWithin(rows[1..]);
        forall k | 0 <= k < |t| ensures rows[0].totalUsersInGroups <= t[k].totalUsersInGroups {
          var m :| 0 <= m < |rows[1..]| && rows[1..][m] == t[k];
          assert rows[1..][m] == rows[m + 1];
        }
        ConsAscending(rows[0], t);
      } else {
        assert DropAll(rows) == t;
      }
    }
  }

  /** `order` is an order of the sport-type collection: it lists every
      stored sport type, and each once. */
  ghost predicate CollectionOrder(db: Db, order: seq<RecordId>) {
    && (forall i, j :: 0 <= i < j < |order| ==> order[i] != order[j])
    && (forall id :: id in order <==> id in db.sportTypes)
  }

  /** `getDashboardData`. `order` is the sport types' collection order;
      `directToday` and `groupToday` are the numbers of direct and group
      messages created today, which the store counts. */
  function DashboardOf(db: Db, reg: Presence.Registry, order: seq<RecordId>,
                       directToday: nat, groupToday: nat): (d: Dashboard)
    requires CollectionOrder(db, order)
  {
    Dashboard(|db.users|, |reg.order|, |db.locations|, directToday + groupToday,
              DropAll(SortRows(Rows(db, order))))
  }

  /** The figures: every stored user and location is counted, the online
      count is the number of users with a registered socket, and the
      messages of both kinds are added. */
  lemma DashboardCounts(db: Db, reg: Presence.Registry, order: seq<RecordId>, directToday: nat, groupToday: nat)
    requires Presence.RegistryValid(reg)
    requires CollectionOrder(db, order)
    ensures var d := DashboardOf(db, reg, order, directToday, groupToday);
            && d.totalUsers == |db.users| && d.totalLocations == |db.locations|
            && d.onlineUsers == |reg.socketOf.Keys|
            && d.totalMessages == directToday + groupToday
  {
    assert (set u | u in reg.order) == reg.socketOf.Keys;
    ElementsCard(reg.order);
  }

  /** The per-sport rows are ordered by their number of users and hold
      no row named "all". */
  lemma DashboardRowsOrdered(db: Db, order: seq<RecordId>)
    requires forall i :: 0 <= i < |order| ==> order[i] in db.sportTypes
    ensures Ascending(DropAll(SortRows(Rows(db, order))))
    ensures var out := DropAll(SortRows(Rows(db, order)));
            forall i :: 0 <= i < |out| ==> out[i].sportType != "all"
  {
    var sorted := SortRows(Rows(db, order));
    SortRowsSpec(Rows(db, order));
    DropAllAscending(sorted);
    var out := DropAll(sorted);
    forall i | 0 <= i < |out| ensures out[i].sportType != "all" {
      DropAllCount(sorted, out[i]);
      assert out[i] in multiset(out);
    }
  }

  /** The per-sport rows are exactly the rows of the stored sport types
      not named "all": each of those has its row shown, and every row shown
      is one of them. */
  lemma DashboardRowsComplete(db: Db, order: seq<RecordId>)
    requires CollectionOrder(db, order)
    ensures forall i :: 0 <= i < |order| ==> order[i] in db.sportTypes
    ensures var out := DropAll(SortRows(Rows(db, order)));
            && (forall row :: row in out ==>
                  exists id :: id in db.sportTypes && db.sportTypes[id].name != "all" && row == RowOf(db, id))
            && (forall id :: id in db.sportTypes && db.sportTypes[id].name != "all" ==> RowOf(db, id) in out)
  {
    assert forall i :: 0 <= i < |order| ==> order[i] in db.sportTypes by {
      forall i | 0 <= i < |order| ensures order[i] in db.sportTypes {
        assert order[i] in order;
      }
    }
    var rows := Rows(db, order);
    var sorted := SortRows(rows);
    SortRowsSpec(rows);
    var out := DropAll(sorted);
    forall row | row in out
      ensures exists id :: id in db.sportTypes && db.sportTypes[id].name != "all" && row == RowOf(db, id)
    {
      DropAllCount(sorted, row);
      assert row in multiset(out);
      assert row in multiset(rows);
      var k :| 0 <= k < |rows| && rows[k] == row;
      assert row == RowOf(db, order[k]);
    }
    forall id | id in db.sportTypes && db.sportTypes[id].name != "all"
      ensures RowOf(db, id) in out
    {
      var k :| 0 <= k < |order| && order[k] == id;
      DropAllCount(sorted, rows[k]);
      assert rows[k] in multiset(rows);
      assert rows[k] in multiset(out);
    }
  }

  // ---------------------------------------------------------------------
  // The admin's own profile
  // ---------------------------------------------------------------------

  /** What `updateProfileAdmin` answers: the store after the save and the
      saved user as shown, with its password blanked. */
  datatype AdminUpdated = AdminUpdated(db: Db, shown: User)

  /** The checks of `updateProfileAdmin`, in order: a given name before a
      given password. */
  function AdminChecks(req: Users.ProfileUpdate): (o: Outcome<Users.Error>)
  {
    if req.name != "" && !Text.NameRegex(req.name, false) then Fail(Users.InvalidName)
    else if req.name != "" && |req.name| < Users.MinName then Fail(Users.NameTooShort)
    else if req.newPassword != "" && |req.newPassword| < Users.MinPassword then Fail(Users.PasswordTooShort)
    else if req.newPassword != "" && req.newPassword != req.confirmNewPassword then Fail(Users.PasswordMismatch)
    else if req.newPassword != "" && req.usesOldPassword then Fail(Users.SamePassword)
    else Pass
  }

  /** The saved record: every given field at once, the name as typed. */
  function AdminChange(u: User, req: Users.ProfileUpdate): (u': User)
  {
    u.(name := if req.name != "" then req.name else u.name,
       password := if req.newPassword != "" then req.hashed else u.password,
       image := if req.image != "" then req.image else u.image)
  }

  /** `updateProfileAdmin`: a new image removes the hosted old one; a
      request with no field saves the user unchanged. */
  function UpdateProfileAdmin(db: Db, caller: UserId, req: Users.ProfileUpdate): (r: Result<AdminUpdated, Users.Error>)
  {
    if caller !in db.users then Err(Users.UserNotFound) else
    var u := db.users[caller];
    :- AdminChecks(req);
    var u' := AdminChange(u, req);
    var cleanup := if req.image != "" then Users.OldImageCleanup(u.image) else [];
    Ok(AdminUpdated(db.(users := db.users[caller := u'], cloud := db.cloud + cleanup), u'.(password := "")))
  }

  /** The admin update succeeds exactly when the admin exists, a given
      name is words of letters and digits at least three long, and a given
      password is long enough, confirmed and new. */
  lemma UpdateProfileAdminAccepts(db: Db, caller: UserId, req: Users.ProfileUpdate)
    ensures UpdateProfileAdmin(db, caller, req).Ok? <==>
              && caller in db.users
              && (req.name != "" ==> Text.NameShape(req.name, false) && |req.name| >= 3)
              && (req.newPassword != "" ==>
                    |req.newPassword| >= 8 && req.newPassword == req.confirmNewPassword
                    && !req.usesOldPassword)
    ensures caller !in db.users ==> UpdateProfileAdmin(db, caller, req) == Err(Users.UserNotFound)
  {
    if req.name != "" {
      Text.NameRegexMeaning(req.name, false);
    }
  }

  /** A successful admin update stores every given field at once, the
      name exactly as typed, touches no other user and no other field,
      removes the old image only when a new one is given, and shows the
      saved user without its password hash; with no field given the store
      is unchanged. */
  lemma UpdateProfileAdminStores(db: Db, caller: UserId, req: Users.ProfileUpdate)
    requires UpdateProfileAdmin(db, caller, req).Ok?
    ensures var r := UpdateProfileAdmin(db, caller, req).value;
            var u := db.users[caller];
            var u' := r.db.users[caller];
            && u'.name == (if req.name != "" then req.name else u.name)
            && u'.password == (if req.newPassword != "" then req.hashed else u.password)
            && u'.image == (if req.image != "" then req.image else u.image)
            && u'.(name := u.name, password := u.password, image := u.image) == u
            && r.db.users == db.users[caller := u']
            && r.shown == u'.(password := "")
            && (req.image == "" ==> r.db.cloud == db.cloud)
            && r.db == db.(users := r.db.users, cloud := r.db.cloud)
            && (req.name == "" && req.newPassword == "" && req.image == "" ==> r.db == db)
  {
    var u := db.users[caller];
    if req.name == "" && req.newPassword == "" && req.image == "" {
      assert AdminChange(u, req) == u;
      assert db.users[caller := u] == db.users;
    }
  }

  /** With a single field the admin update and the user's own update
      agree, except that the user's update capitalises the first letter of
      a name and the admin's stores it as typed. */
  lemma AdminAndUserUpdatesAgree(db: Db, caller: UserId, req: Users.ProfileUpdate)
    requires (req.name != "" && req.newPassword == "" && req.image == "")
             || (req.name == "" && req.newPassword != "" && req.image == "")
             || (req.name == "" && req.newPassword == "" && req.image != "")
    ensures var a := UpdateProfileAdmin(db, caller, req);
            var s := Users.UpdateProfile(db, caller, req);
            && (a.Ok? <==> s.Ok?)
            && (a.Ok? && req.name == "" ==> a.value.db == s.value)
            && (a.Ok? && req.name != "" ==>
                  && s.value.users[caller].name == Text.CastFirstLetterToUpperCase(a.value.db.users[caller].name)
                  && s.value == a.value.db.(users := a.value.db.users[caller := s.value.users[caller]]))
  {
  }
}
