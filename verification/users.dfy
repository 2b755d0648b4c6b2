/** The user handlers: sending a friend request, reporting a user, updating
    one's own profile, deactivating one's account and registering the
    device token for push notifications. */
module Users {
  import opened Wrappers
  import opened Records
  import Text
  import Push

  /** The folder profile images live in on the image host. */
  const ProfileImageFolder := "user_profile_images"

  // ---------------------------------------------------------------------
  // addFriend
  // ---------------------------------------------------------------------

  /** Every refusal of the user handlers. */
  datatype Error =
    | UserIdRequired | AddSelf | UserNotFound | AlreadyFriends | DuplicateKey
    | ReasonRequired | InvalidReason | DescriptionTooLong
    | InvalidName | NameTooShort | PasswordTooShort | PasswordMismatch | SamePassword | InvalidUserData
    | TokenRequired

  /** Whether a friendship joins `a` and `b`, in either order. */
  predicate AreFriends(db: Db, a: UserId, b: UserId) {
    exists id :: id in db.friendships
                 && ((db.friendships[id].user1 == a && db.friendships[id].user2 == b)
                     || (db.friendships[id].user1 == b && db.friendships[id].user2 == a))
  }

  /** The checks of `addFriend`, in the handler's order. */
  function AddChecks(db: Db, caller: UserId, target: UserId, reqId: RecordId): (o: Outcome<Error>)
  {
    if target == "" then Fail(UserIdRequired)
    else if target == caller then Fail(AddSelf)
    else if target !in db.users || caller !in db.users then Fail(UserNotFound)
    else if AreFriends(db, caller, target) then Fail(AlreadyFriends)
    else if reqId in db.friendRequests then Fail(DuplicateKey)
    else Pass
  }

  /** The store after the request and its notification are created, before
      any push. */
  function Requested(db: Db, caller: UserId, target: UserId, reqId: RecordId, now: int): (db': Db)
  {
    db.(friendRequests := db.friendRequests[reqId := FriendRequest(caller, target, Pending)],
        notifications := db.notifications + [NewNotification(FriendRequestSent, caller, target, reqId, now)])
  }

  /** What `addFriend` as written answers: a refusal, success, or a server
      error raised by the push after the request and its notification were
      already stored. */
  datatype AddReply = Refused(error: Error) | Created(db: Db) | ServerError(db: Db)

  /** `addFriend` as written: the push goes out without looking at the
      receiver's token and without catching a failure. */
  function AddFriendAsWritten(db: Db, caller: UserId, target: UserId, reqId: RecordId, now: int,
                              reply: Push.ProviderReply): (r: AddReply)
  {
    var checks := AddChecks(db, caller, target, reqId);
    if checks.Fail? then Refused(checks.error)
    else
      var db' := Requested(db, caller, target, reqId, now);
      if Push.AddFriendPushThrows(db.users[target].fcmToken, reply) then ServerError(db') else Created(db')
  }

  /** `addFriend` with the push every other handler uses: only to a
      receiver with a token, a dead token is unset, and no failure of the
      push changes the answer. */
  function AddFriend(db: Db, caller: UserId, target: UserId, reqId: RecordId, now: int,
                     online: set<UserId>, reply: Push.ProviderReply): (r: Result<Db, Error>)
  {
    var checks := AddChecks(db, caller, target, reqId);
    :- checks;
    var db' := Requested(db, caller, target, reqId, now);
    Ok(db'.(users := Push.PushTo(db.users, caller, target, online, reply)))
  }

  /** A request is sent exactly when the target is given, is not the
      caller, both users exist, they are not friends in either order, and
      the request id is fresh; the checks run in that order. The request is
      stored pending from the caller to the target, the target gets one
      unread notification about it, and only the target's token can change. */
  lemma AddFriendSpec(db: Db, caller: UserId, target: UserId, reqId: RecordId, now: int,
                      online: set<UserId>, reply: Push.ProviderReply)
    ensures var r := AddFriend(db, caller, target, reqId, now, online, reply);
            && (r.Ok? <==> target != "" && target != caller && target in db.users && caller in db.users
                           && !AreFriends(db, caller, target) && reqId !in db.friendRequests)
            && (target == "" ==> r == Err(UserIdRequired))
            && (target != "" && target == caller ==> r == Err(AddSelf))
            && (r.Ok? ==>
                  && r.value.friendRequests == db.friendRequests[reqId := FriendRequest(caller, target, Pending)]
                  && r.value.notifications == db.notifications
                       + [Notification(FriendRequestSent, caller, target, reqId, false, now)]
                  && r.value.users.Keys == db.users.Keys
                  && (forall u :: u in db.users && u != target ==> r.value.users[u] == db.users[u])
                  && r.value == db.(friendRequests := r.value.friendRequests,
                                    notifications := r.value.notifications, users := r.value.users))
  {
  }

  /** A pending request does not stop another: when one already runs from
      the caller to the target, sending again leaves two pending requests
      between them. */
  lemma AddFriendRepeatsRequests(db: Db, caller: UserId, target: UserId, first: RecordId, reqId: RecordId,
                                 now: int, online: set<UserId>, reply: Push.ProviderReply)
    requires target != "" && target != caller && target in db.users && caller in db.users
    requires !AreFriends(db, caller, target) && reqId !in db.friendRequests
    requires first in db.friendRequests && db.friendRequests[first] == FriendRequest(caller, target, Pending)
    ensures var r := AddFriend(db, caller, target, reqId, now, online, reply);
            && r.Ok? && first != reqId
            && r.value.friendRequests[first] == r.value.friendRequests[reqId]
  {
  }

  /** As written and corrected, `addFriend` refuses the same requests and
      stores the same request and notification; they differ only in the
      answer, which as written is a server error whenever the target has
      no token or the provider does not deliver, and in the corrected
      handler's unsetting of a dead token. */
  lemma AddFriendAsWrittenVersusCorrected(db: Db, caller: UserId, target: UserId, reqId: RecordId,
                                          now: int, online: set<UserId>, reply: Push.ProviderReply)
    ensures var w := AddFriendAsWritten(db, caller, target, reqId, now, reply);
            var c := AddFriend(db, caller, target, reqId, now, online, reply);
            && (w.Refused? <==> c.Err?)
            && (w.Refused? ==> w.error == c.error)
            && (c.Ok? ==> w.db == c.value.(users := db.users))
            && (c.Ok? ==>
                  (w.ServerError? <==> db.users[target].fcmToken == "" || reply != Push.Delivered))
  {
  }

  /** A target without a device token makes `addFriend` as written answer
      a server error although the request was stored; the corrected handler
      succeeds with the same request and skips the push. */
  lemma AddFriendFailsWithoutToken(db: Db, caller: UserId, target: UserId, reqId: RecordId, now: int,
                                   online: set<UserId>)
    requires target != "" && target != caller && target in db.users && caller in db.users
    requires !AreFriends(db, caller, target) && reqId !in db.friendRequests
    requires db.users[target].fcmToken == ""
    ensures var w := AddFriendAsWritten(db, caller, target, reqId, now, Push.Delivered);
            && w.ServerError?
            && w.db.friendRequests[reqId] == FriendRequest(caller, target, Pending)
            && AddFriend(db, caller, target, reqId, now, online, Push.Delivered) == Ok(w.db)
  {
    assert Push.PushTo(db.users, caller, target, online, Push.Delivered) == db.users;
  }

  // ---------------------------------------------------------------------
  // reportUser
  // ---------------------------------------------------------------------

  /** The reasons a user can be reported for. */
  const UserReportReasons: seq<string> := ["Inappropriate name", "Inappropriate profile image", "Use of offensive words"]

  /** The longest description a report may carry. */
  const MaxDescription := 300

  /** `reportUser`: the report is stored unacknowledged, with an absent
      image as null. Anyone may report anyone, themselves included. */
  function ReportUser(db: Db, caller: UserId, target: UserId, reason: string, description: string,
                      image: string, reportId: RecordId): (r: Result<Db, Error>)
  {
    if reason == "" then Err(ReasonRequired) else
    :- Need(reason in UserReportReasons, InvalidReason);
    :- Need(|description| <= MaxDescription, DescriptionTooLong);
    :- Need(target in db.users, UserNotFound);
    :- Need(reportId !in db.reports, DuplicateKey);
    Ok(db.(reports := db.reports[reportId := Report(UserReport, caller, target, reason, description,
                                                    OrNull(image), false)]))
  }

  /** A report is stored exactly for one of the three reasons, a
      description of at most 300 characters and a stored user; a reason
      outside the list is refused before the description is looked at, and
      both before the user. Nothing but the new report changes. */
  lemma ReportUserSpec(db: Db, caller: UserId, target: UserId, reason: string, description: string,
                       image: string, reportId: RecordId)
    ensures var r := ReportUser(db, caller, target, reason, description, image, reportId);
            && (r.Ok? <==> reason in {"Inappropriate name", "Inappropriate profile image", "Use of offensive words"}
                           && |description| <= 300 && target in db.users && reportId !in db.reports)
            && (reason != "" && reason !in UserReportReasons ==> r == Err(InvalidReason))
            && (reason in UserReportReasons && |description| > 300 ==> r == Err(DescriptionTooLong))
            && (r.Ok? ==>
                  && r.value.reports == db.reports[reportId := r.value.reports[reportId]]
                  && var rep := r.value.reports[reportId];
                  && rep.kind == UserReport && rep.reportBy == caller && rep.reportedId == target
                  && rep.reason == reason && !rep.isAcknowledged
                  && (rep.image.Some? <==> image != "")
                  && r.value == db.(reports := r.value.reports))
  {
  }

  // ---------------------------------------------------------------------
  // updateProfile
  // ---------------------------------------------------------------------

  /** The shortest name and password the handlers accept. */
  const MinName := 3
  const MinPassword := 8

  /** The request body of `updateProfile`. `usesOldPassword` is what the
      hash comparison of the new password with the stored hash answers,
      and `hashed` the new hash; hashing is not modelled. */
  datatype ProfileUpdate = ProfileUpdate(
    name: string,
    newPassword: string,
    confirmNewPassword: string,
    image: string,
    usesOldPassword: bool,
    hashed: string)

  /** The image-host call that removes a user's current profile image, when
      it is hosted there. */
  function OldImageCleanup(current: string): (ops: seq<CloudOp>)
    ensures |ops| <= 1
  {
    if current != "" && Text.Contains(current, "cloudinary.com")
    then [DestroyImage(Text.PublicId(current, ProfileImageFolder))] else []
  }

  /** The field change `updateProfile` makes to the caller's record: one
      field per call; a name wins over a password and a password over an
      image. */
  function ProfileChange(u: User, req: ProfileUpdate): (r: Result<User, Error>)
  {
    if req.name != "" then
      :- Need(Text.NameRegex(req.name, false), InvalidName);
      :- Need(|req.name| >= MinName, NameTooShort);
      Ok(u.(name := Text.CastFirstLetterToUpperCase(req.name)))
    else if req.newPassword != "" then
      :- Need(|req.newPassword| >= MinPassword, PasswordTooShort);
      :- Need(req.newPassword == req.confirmNewPassword, PasswordMismatch);
      :- Need(!req.usesOldPassword, SamePassword);
      Ok(u.(password := req.hashed))
    else if req.image != "" then
      Ok(u.(image := req.image))
    else Err(InvalidUserData)
  }

  /** `updateProfile`: the caller must exist; a new image also removes the
      previous one from the image host. */
  function UpdateProfile(db: Db, caller: UserId, req: ProfileUpdate): (r: Result<Db, Error>)
  {
    if caller !in db.users then Err(UserNotFound) else
    var u := db.users[caller];
    var u' :- ProfileChange(u, req);
    var cleanup := if req.name == "" && req.newPassword == "" then OldImageCleanup(u.image) else [];
    Ok(db.(users := db.users[caller := u'], cloud := db.cloud + cleanup))
  }

  /** Only the caller's record changes, and in it only the one field the
      precedence picks: the name when one is given, else the password when
      one is given, else the image; with none of them the call is refused. */
  lemma UpdateProfileOneField(db: Db, caller: UserId, req: ProfileUpdate)
    ensures var r := UpdateProfile(db, caller, req);
            && (r.Ok? ==>
                  var u := db.users[caller];
                  var u' := r.value.users[caller];
                  && r.value.users == db.users[caller := u']
                  && (req.name != "" ==> u' == u.(name := u'.name) && r.value.cloud == db.cloud)
                  && (req.name == "" && req.newPassword != "" ==>
                        u' == u.(password := u'.password) && r.value.cloud == db.cloud)
                  && (req.name == "" && req.newPassword == "" ==> u' == u.(image := u'.image))
                  && r.value == db.(users := r.value.users, cloud := r.value.cloud))
            && (caller in db.users && req.name == "" && req.newPassword == "" && req.image == "" ==>
                  r == Err(InvalidUserData))
            && (caller !in db.users ==> r == Err(UserNotFound))
  {
  }

  /** A name is taken exactly when it is words of letters and digits
      separated by single spaces and at least three long; a name the
      pattern refuses is refused for that, even when it is also short. The
      stored name is the given one with its first letter upper-cased, still
      a name the pattern accepts. */
  lemma UpdateProfileNameSpec(db: Db, caller: UserId, req: ProfileUpdate)
    requires caller in db.users && req.name != ""
    ensures var r := UpdateProfile(db, caller, req);
            && (r.Ok? <==> Text.NameShape(req.name, false) && |req.name| >= 3)
            && (!Text.NameShape(req.name, false) ==> r == Err(InvalidName))
            && (r.Ok? ==>
                  && r.value.users[caller].name == Text.CastFirstLetterToUpperCase(req.name)
                  && |r.value.users[caller].name| == |req.name|
                  && Text.NameShape(r.value.users[caller].name, false))
  {
    Text.NameRegexMeaning(req.name, false);
    if Text.NameShape(req.name, false) {
      Text.CastKeepsNameShape(req.name, false);
    }
  }

  /** Without a name, a new password is taken exactly when it has at least
      eight characters, equals its confirmation and is not the current
      password, checked in that order; the stored hash becomes the new one. */
  lemma UpdateProfilePasswordSpec(db: Db, caller: UserId, req: ProfileUpdate)
    requires caller in db.users && req.name == "" && req.newPassword != ""
    ensures var r := UpdateProfile(db, caller, req);
            && (r.Ok? <==> |req.newPassword| >= 8 && req.newPassword == req.confirmNewPassword
                           && !req.usesOldPassword)
            && (|req.newPassword| < 8 ==> r == Err(PasswordTooShort))
            && (|req.newPassword| >= 8 && req.newPassword != req.confirmNewPassword ==> r == Err(PasswordMismatch))
            && (r.Ok? ==> r.value.users[caller].password == req.hashed)
  {
  }

  /** With only an image, it is always taken; the previous image is
      destroyed on the image host exactly when it is hosted there. */
  lemma UpdateProfileImageSpec(db: Db, caller: UserId, req: ProfileUpdate)
    requires caller in db.users && req.name == "" && req.newPassword == "" && req.image != ""
    ensures var r := UpdateProfile(db, caller, req);
            var old_ := db.users[caller].image;
            && r.Ok?
            && r.value.users[caller].image == req.image
            && (r.value.cloud == db.cloud
                <==> !(old_ != "" && Text.Contains(old_, "cloudinary.com")))
            && (old_ != "" && Text.Contains(old_, "cloudinary.com") ==>
                  r.value.cloud == db.cloud + [DestroyImage(Text.PublicId(old_, "user_profile_images"))])
  {
    var r := UpdateProfile(db, caller, req);
    var old_ := db.users[caller].image;
    if old_ != "" && Text.Contains(old_, "cloudinary.com") {
      assert |r.value.cloud| == |db.cloud| + 1;
    }
  }

  // ---------------------------------------------------------------------
  // deactivateAccount and updateFcmToken
  // ---------------------------------------------------------------------

  /** `deactivateAccount`: the caller is marked deactivated as of `now`;
      the account is anonymised later by the periodic clean-up. */
  function Deactivate(db: Db, caller: UserId, now: int): (r: Result<Db, Error>)
  {
    if caller !in db.users then Err(UserNotFound) else
    Ok(db.(users := db.users[caller := db.users[caller].(isDeactivate := true, deactivatedAt := Some(now))]))
  }

  /** Deactivating succeeds for any stored user, also an already
      deactivated one (whose date moves to `now`), and changes only the
      caller's deactivation flag and date. */
  lemma DeactivateSpec(db: Db, caller: UserId, now: int)
    ensures var r := Deactivate(db, caller, now);
            && (r.Ok? <==> caller in db.users)
            && (r.Ok? ==>
                  && r.value.users.Keys == db.users.Keys
                  && r.value.users[caller].isDeactivate
                  && r.value.users[caller].deactivatedAt == Some(now)
                  && r.value.users[caller] == db.users[caller].(isDeactivate := r.value.users[caller].isDeactivate,
                                                                deactivatedAt := r.value.users[caller].deactivatedAt)
                  && (forall u :: u in db.users && u != caller ==> r.value.users[u] == db.users[u])
                  && r.value == db.(users := r.value.users))
  {
  }

  /** `updateFcmToken`: the caller's device token is overwritten. */
  function UpdateFcmToken(db: Db, caller: UserId, token: string): (r: Result<Db, Error>)
  {
    if token == "" then Err(TokenRequired) else
    :- Need(caller in db.users, UserNotFound);
    Ok(db.(users := db.users[caller := db.users[caller].(fcmToken := token)]))
  }

  /** A token is required before the user is looked up. The stored token
      becomes the given one and nothing else changes; registering the same
      token again changes nothing, and the next push to the caller is
      attempted with it. */
  lemma UpdateFcmTokenSpec(db: Db, caller: UserId, token: string, online: bool, reply: Push.ProviderReply)
    ensures var r := UpdateFcmToken(db, caller, token);
            && (r.Ok? <==> token != "" && caller in db.users)
            && (token == "" ==> r == Err(TokenRequired))
            && (r.Ok? ==>
                  && r.value.users == db.users[caller := db.users[caller].(fcmToken := token)]
                  && r.value == db.(users := r.value.users)
                  && UpdateFcmToken(r.value, caller, token) == r
                  && Push.Decide(true, r.value.users[caller].fcmToken, online, reply).sent.Some?)
  {
    var r := UpdateFcmToken(db, caller, token);
    if r.Ok? {
      assert r.value.users[caller := r.value.users[caller].(fcmToken := token)] == r.value.users;
    }
  }
}
