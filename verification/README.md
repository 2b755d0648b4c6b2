# PlayBuddy core, modelled in Dafny

PlayBuddy is a social app for finding people to play sport with. Users sign up, add friends, chat one to one, and join group chats. Each group chat is tied to a sport type and a location. An admin panel moderates users, group chats, locations and sport types. This project models the backend's business logic as pure functions over one immutable store, `Records.Db`. It also models the web client's pagination and location form. The modules are:

- `Wrappers`, `Records`, `Seqs`, `Text`: the result types and the stored records (users, group chats, messages, requests, invitations, notifications, reports, locations, sport types). `Text` has the string helpers the handlers use: trimming, ASCII case mapping, the name and e-mail patterns, first-letter casing, and image public ids.
- `Users`, `Auth`: the user and authentication handlers. Sign-up, login, reset codes and reactivation are covered, and so are profile updates, friend requests by user, reports, deactivation and push tokens.
- `FriendRequests`, `Friendships`, `GroupInvitations`, `Notifications`: the social handlers and the five-item notification feed.
- `DirectMessages`, `GroupMessages`, `Push`: sending messages, with the push notifications they trigger. The provider's answer is an input.
- `GroupChat`, `GroupChatAdmin`: the group-chat handlers and the admin panel's group-chat handlers. A group is `Valid` when its admin is a member, its members are distinct, and each member has a join time.
- `Presence`: the Socket.IO server. It covers the online-user registry, rooms, relayed messages and read receipts, with runs of events.
- `UserAdmin`, `LocationAdmin`, `SportTypeAdmin`: the admin panel's user, location and sport-type handlers, including the dashboard.
- `Deactivation`, `Reset`: the daily job that anonymises accounts deactivated for a week, and the data-reset helper.
- `Pagination`, `LocationForm`: the web client's pagination hook and controls, and its location form schema.

Several things come from outside the backend. The store's answers to single lookups are inputs: `found` is the record a `findOne` returned and `matches` is the password comparison. Each lookup lemma requires that the answer is faithful. Fresh ids and the clock are inputs too. The push provider's reply is an input, and the set of online users is an input. Image-host calls are not carried out; they are appended to `Db.cloud` as `DestroyImage` and `DeleteFolder` operations. An absent request field is modelled as the empty string, which the handlers treat as falsy.

## Model

| member | source | states |
|---|---|---|
| Text.NameRegexMeaning | playbuddy_backend/src/controllers/auth.controller.ts:46-47 | the name regular expression `^(?!.*\s{2,})[A-Za-z0-9]+(?: [A-Za-z0-9]+)*$` (with `'` allowed in the group-chat variant) accepts exactly words of word characters separated by single spaces |
| Text.TrimRemovesOnlyWhitespace | playbuddy_backend/src/controllers/auth.controller.ts:44-47 | `trim()` keeps an infix of the string and removes only JS white space from either end |
| Text.TrimFixesTrimmed | playbuddy_backend/src/controllers/auth.controller.ts:44-47 | a string that neither starts nor ends with white space is its own trim |
| Text.TrimIdempotent | playbuddy_backend/src/controllers/auth.controller.ts:44-47 | trimming twice is trimming once |
| Text.LowerCaseIdempotent | playbuddy_backend/src/controllers/auth.controller.ts:63 | lower-casing an already lower-cased e-mail changes nothing |
| Text.CastFirstLetterToUpperCase | playbuddy_backend/src/utils/helper.ts:100-104 | the empty string stays empty; otherwise only the first character is upper-cased and the length is kept |
| Text.CastFirstLetterIdempotent | playbuddy_backend/src/utils/helper.ts:100-104 | casting twice is casting once |
| Text.CastKeepsNameShape | playbuddy_backend/src/controllers/user.controller.ts:208-224 | casting the first letter of a name the pattern accepts yields a name the pattern accepts |
| Text.JoinSplit | playbuddy_backend/src/utils/helper.ts:53-55 | `split` loses nothing: joining its parts with the separator gives the string back |
| Text.PublicIdShape | playbuddy_backend/src/utils/helper.ts:46-58 | the destroyed public id is the folder, a slash, and the part of the URL's last segment before its first dot |
| Pagination.TotalPages | playbuddy_web/src/hooks/usePagination.tsx:7 | `Math.ceil(n / k)`: the least page count whose pages hold all n items |
| Pagination.PageContents | playbuddy_web/src/hooks/usePagination.tsx:9-12 | a page from 1 on shows the items from `(page - 1) * k` up to `page * k`, clipped at the end of the data |
| Pagination.NonEmptyPages | playbuddy_web/src/hooks/usePagination.tsx:7-12 | exactly the pages 1 .. totalPages show items; page 0 and pages past the end show none |
| Pagination.PagesPartitionData | playbuddy_web/src/hooks/usePagination.tsx:7-12 | reading pages 1 .. totalPages in turn shows every item exactly once, in data order |
| Pagination.PageLinksAreThePages | playbuddy_web/src/components/PaginationControls.tsx:22 | the rendered links are 1 .. totalPages, each once, increasing |
| Pagination.ClickKeepsRange | playbuddy_web/src/components/PaginationControls.tsx:28-52 | a click on a rendered Previous, Next or page link keeps the current page in 1 .. totalPages, or at 0 or 1 when there are no pages |
| Pagination.ReachablePagesInRange | playbuddy_web/src/hooks/usePagination.tsx:4-12 | from the initial page 1, any run of clicks on rendered controls keeps the page in range, and with any data the page shown is never empty |
| Pagination.PreviousNextInverse | playbuddy_web/src/components/PaginationControls.tsx:30-50 | Previous undoes Next and Next undoes Previous away from the first and last page |
| LocationForm.NoIssuesIffAcceptable | playbuddy_web/src/lib/zod.ts:3-38 | the form schema reports no issue exactly for a name of 1-50 letters, digits, spaces or hyphens, a description of 1-300 characters, numeric non-zero coordinates within ±90 and ±180, and at least one sport type |
| LocationForm.IssuesOfField | playbuddy_web/src/lib/zod.ts:3-38 | a field reports an issue exactly when its own rule fails, whatever the other fields hold |
| Presence.RegisterKeepsValid | playbuddy_backend/src/libs/socket.ts:33-56 | `onlineUsers.set` keeps the key order duplicate-free and in step with the map; a new key goes last, an existing key keeps its place |
| Presence.UnregisterKeepsValid | playbuddy_backend/src/libs/socket.ts:237-249 | `onlineUsers.delete` keeps the registry well formed and removes exactly that key |
| Presence.AnnounceSpec | playbuddy_backend/src/libs/socket.ts:33-56 | an empty id changes nothing; otherwise the user maps to the announcing socket, the online list goes to every socket, and the only other entries that can disappear belong to the user's previous socket, which is closed |
| Presence.AnnounceKeepsValid | playbuddy_backend/src/libs/socket.ts:33-56 | the announce keeps the server state well formed |
| Presence.DisconnectKeepsValid | playbuddy_backend/src/libs/socket.ts:237-249 | a disconnect keeps the server state well formed |
| Presence.DisconnectSpec | playbuddy_backend/src/libs/socket.ts:237-249 | a disconnect removes the registry entry exactly when the registry still maps that socket's user to that socket |
| Presence.LatestAnnounceWins | playbuddy_backend/src/libs/socket.ts:33-56 | after a user announces from two sockets in turn, the registry maps the user to the later one |
| Presence.OneSocketTwoUsers | playbuddy_backend/src/libs/socket.ts:33-56 | a socket that announces two users keeps both registry entries, but its disconnect removes only the last user's |
| Presence.RoomsHaveNoMembershipCheck | playbuddy_backend/src/libs/socket.ts:83-86 | any socket that joins a group's room receives what is sent to it, member or not |
| Presence.MemberSignalsTargets | playbuddy_backend/src/libs/socket.ts:93-137 | the group signals go to exactly the sockets of the online members |
| Presence.ReadDirectSpec | playbuddy_backend/src/libs/socket.ts:140-175 | a read event with a missing id or no messages does nothing; otherwise exactly the listed direct messages become read, and the notice goes only to the sender's and the receiver's sockets, to each that is online |
| Presence.ReadGroupSpec | playbuddy_backend/src/libs/socket.ts:177-225 | read sets only grow; when anything changes, the reader joins `readBy` of exactly the listed messages; repeating the event changes nothing more |
| Presence.HandleKeepsValidAndReadGrows | playbuddy_backend/src/libs/socket.ts:29-249 | every handled event keeps the registry well formed, and read marks are never removed |
| Presence.RunKeepsValidAndReadGrows | playbuddy_backend/src/libs/socket.ts:29-249 | over any sequence of events the registry stays well formed and read state only grows |
| Presence.SendDirect | playbuddy_backend/src/libs/socket.ts:58-81 | a direct message is relayed only to the receiver's socket, and only when both users exist and the receiver is online; the server state is untouched |
| Presence.SendGroup | playbuddy_backend/src/libs/socket.ts:93-137 | a stored message with a group id goes to the group's room, then a last-message update to each online member, the sender included; otherwise nothing is sent |
| Presence.Unfriend | playbuddy_backend/src/libs/socket.ts:227-235 | the unfriend notice goes exactly when the friend is online, to the friend's socket and not back to the sending socket |
| Push.Decide | playbuddy_backend/src/controllers/directMessage.controller.ts:135-200 | a push goes out exactly when the user is found and has a token, as a data message when online, and the token is unset exactly when the provider reports it not registered |
| Push.PushTo | playbuddy_backend/src/controllers/friendRequest.controller.ts:150-215 | a push changes at most the receiver's record, and only by unsetting a dead token |
| Push.DeadTokenIsForgotten | playbuddy_backend/src/controllers/directMessage.controller.ts:135-200 | a push to a token the provider reports as not registered unsets that token, and no later push goes to it |
| Push.GroupPushAll | playbuddy_backend/src/controllers/groupMessage.controller.ts:75-155 | the intended loop pushes to every receiver with a token and unsets every dead token |
| Push.AsWrittenIsPrefix | playbuddy_backend/src/controllers/groupMessage.controller.ts:81-150 | the loop as written reaches a prefix of the intended receivers and unsets at most one token; when no token is dead it does everything the intended loop does |
| Push.AsWrittenSkipsLaterReceivers | playbuddy_backend/src/controllers/groupMessage.controller.ts:100-112 | a concrete receiver list where the first token is dead and the live second receiver gets no push |
| Push.AddFriendPushThrowsOnMissingOrDeadToken | playbuddy_backend/src/controllers/user.controller.ts:94-120 | the friend-request push throws for a missing token whatever the provider answers, and for every dead token; the single-receiver pattern skips a missing token and unsets a dead one, online or not |
| GroupMessages.GroupMessagesOf | playbuddy_backend/src/controllers/groupMessage.controller.ts:167-206 | the listing is refused for a missing group or a non-member, and otherwise holds exactly the group's messages |
| GroupMessages.SendAcceptsExactly | playbuddy_backend/src/controllers/groupMessage.controller.ts:9-60 | a group message is stored exactly when it has text or an image, the group exists, the sender is a member and the message id is fresh; the empty message is refused first, then the missing group |
| GroupMessages.SendEffects | playbuddy_backend/src/controllers/groupMessage.controller.ts:40-75 | the stored message comes from the sender to the group with an empty read set, becomes the group's last message, and one unread notice goes to every other member, in member order |
| GroupMessages.SendUnsetsEveryDeadToken | playbuddy_backend/src/controllers/groupMessage.controller.ts:75-155 | only dead tokens of other members are unset, and all of them are |
| GroupMessages.DeadTokensAre | playbuddy_backend/src/controllers/groupMessage.controller.ts:75-80 | the dead tokens among the receivers are exactly those of the other stored members whose token the provider rejects |
| DirectMessages.ChatMessages | playbuddy_backend/src/controllers/directMessage.controller.ts:9-51 | the listing succeeds exactly for one of the chat's two users and then holds exactly the chat's messages |
| DirectMessages.SendChecksOrder | playbuddy_backend/src/controllers/directMessage.controller.ts:53-105 | the checks fail in the handler's order: missing ids, self-send, no text and no image, unknown chat |
| DirectMessages.SendIsBetweenTheChatPair | playbuddy_backend/src/controllers/directMessage.controller.ts:53-125 | a stored message joins two different users who are exactly the chat's two users |
| DirectMessages.SendEffects | playbuddy_backend/src/controllers/directMessage.controller.ts:105-135 | the stored message is unread and carries exactly the given text and image, becomes the chat's last message, one unread notice goes to the receiver, and only the receiver's token may change |
| DirectMessages.SendAcceptsExactly | playbuddy_backend/src/controllers/directMessage.controller.ts:53-125 | sending succeeds exactly when both ids are given and differ, there is text or an image, the chat exists with exactly those two users, and the message id is fresh |
| FriendRequests.ListSides | playbuddy_backend/src/controllers/friendRequest.controller.ts:10-48 | `type` sent or received selects one side, any other value both; a status selects exactly that status, and an unknown status nothing |
| FriendRequests.AcceptSpec | playbuddy_backend/src/controllers/friendRequest.controller.ts:72-230 | only the receiver of a stored request may accept; it becomes accepted, no request between the two stays pending, one friendship and one chat are created, and the sender is notified |
| FriendRequests.AcceptTwiceBefriendsTwice | playbuddy_backend/src/controllers/friendRequest.controller.ts:72-110 | accept does not look at the status: accepting an accepted request creates a second friendship |
| FriendRequests.RejectSpec | playbuddy_backend/src/controllers/friendRequest.controller.ts:232-274 | rejecting succeeds exactly for the receiver of a stored request and only sets its status |
| Friendships.Friends | playbuddy_backend/src/controllers/friendship.controller.ts:86-115 | the caller's friendships are exactly those with the caller on either side |
| Friendships.UnfriendSpec | playbuddy_backend/src/controllers/friendship.controller.ts:8-84 | unfriending is refused for a missing friendship, a non-party, or no chat stored in the friendship's user order; otherwise the friendship, that chat and its messages go, the chat's image folder is deleted, and the other user is named |
| Friendships.ReversedChatIsNotFound | playbuddy_backend/src/controllers/friendship.controller.ts:32-44 | a chat stored with its users the other way round is not found, so unfriending fails |
| GroupInvitations.ListSelects | playbuddy_backend/src/controllers/groupInvitation.controller.ts:5-44 | a listing holds exactly the invitations on the chosen side with the chosen status |
| GroupInvitations.RejectSpec | playbuddy_backend/src/controllers/groupInvitation.controller.ts:70-112 | rejecting succeeds exactly for the receiver of a stored invitation and only sets its status |
| Notifications.MineMembers | playbuddy_backend/src/controllers/notification.controller.ts:4-39 | the selection keeps exactly the caller's notifications with the given read flag, in order |
| Notifications.SortSpec | playbuddy_backend/src/controllers/notification.controller.ts:4-39 | the sort puts newest first and keeps exactly the same notifications |
| Notifications.FeedLength | playbuddy_backend/src/controllers/notification.controller.ts:4-39 | the feed holds all u unread notifications, topped up with read ones to five when u is below five |
| Notifications.FeedOrder | playbuddy_backend/src/controllers/notification.controller.ts:4-39 | the feed shows every unread notification of the caller first, newest first, then read ones newest first |
| Notifications.MarkAllReadSpec | playbuddy_backend/src/controllers/notification.controller.ts:41-58 | marking sets read exactly on the caller's notifications, keeps the rest, is idempotent, and leaves the caller nothing unread |
| GroupChat.InLocation | playbuddy_backend/src/controllers/groupChat.controller.ts:18-36 | the chats listed at a location are exactly the stored chats that meet there |
| GroupChat.CreateListedAtLocation | playbuddy_backend/src/controllers/groupChat.controller.ts:93-208 | a created chat is listed at its own location and no other, and no listing gains anything else |
| GroupChat.CreateAcceptsExactly | playbuddy_backend/src/controllers/groupChat.controller.ts:93-208 | a group is created exactly when location, sport type, skill and maxMembers are given, the trimmed name is 3-30 long and matches the pattern, the untrimmed name is at most 30 and the description at most 300 (the schema's bounds on save), maxMembers is 2-30, the skill is one of the four levels, the location exists and lists the sport type, and the id is fresh |
| GroupChat.CreatedGroup | playbuddy_backend/src/controllers/groupChat.controller.ts:183-197 | the new group has the caller as only member, creator and admin, with its join time, the given name (which passes the name rule) and the schema's bounds; nothing else in the store changes |
| GroupChat.JoinGroup | playbuddy_backend/src/controllers/groupChat.controller.ts:389-414 | a join is refused when the member count equals maxMembers (reported as full), then when the caller is already a member, then by the save when the group is outside the schema bounds; otherwise the caller is appended with its join time and nothing else changes |
| GroupChat.Join | playbuddy_backend/src/controllers/groupChat.controller.ts:373-414 | the handler answers not-found for an unknown group, otherwise succeeds exactly when the join does, and stores the joined group in place of the old one |
| GroupChat.JoinKeepsValid | playbuddy_backend/src/controllers/groupChat.controller.ts:389-414 | joining keeps the membership invariant |
| GroupChat.SettleInvitationsSpec | playbuddy_backend/src/controllers/groupChat.controller.ts:416-431 | the found invitation becomes accepted, the caller's other invitations to the group become old, all others are unchanged |
| GroupChat.LeaveGroup | playbuddy_backend/src/controllers/groupChat.controller.ts:549-612 | leaving is refused as not-member exactly for a non-member; a member is otherwise refused only by the save of a remaining group outside the schema bounds, and only an admin's leave dissolves |
| GroupChat.LeaveDissolvesExactly | playbuddy_backend/src/controllers/groupChat.controller.ts:560-606 | leaving dissolves the group exactly when the admin was its only member |
| GroupChat.LeaveRemains | playbuddy_backend/src/controllers/groupChat.controller.ts:560-612 | otherwise the save refuses a group outside the schema bounds and accepts any other; then the caller and its join time go, a leaving admin is replaced by the first member with the earliest join time, and the group stays valid |
| GroupChat.PurgeGroupMessages | playbuddy_backend/src/controllers/groupChat.controller.ts:598 | deleting a group's messages keeps exactly the messages of other groups |
| GroupChat.GroupImageCleanup | playbuddy_backend/src/controllers/groupChat.controller.ts:346-356 | the image-host calls end with deleting the group's message-image folder |
| GroupChat.Dissolve | playbuddy_backend/src/controllers/groupChat.controller.ts:346-362 | the group is removed from the store |
| GroupChat.AdminOnMember | playbuddy_backend/src/controllers/groupChat.controller.ts:640-670 | kick and set-as-admin pass exactly for the admin acting on another member, failing with not-allowed, self-target or not-member otherwise |
| GroupChat.KickSpec | playbuddy_backend/src/controllers/groupChat.controller.ts:623-702 | a kick succeeds exactly for the admin naming another member of a group within the schema bounds; each failed check gives its own error and an out-of-bounds group is refused by the save; a kick removes exactly the target, never the admin, keeps the others' join times and keeps the group valid |
| GroupChat.SetAdminSpec | playbuddy_backend/src/controllers/groupChat.controller.ts:704-760 | handing over the admin role succeeds exactly for the admin naming another member of a group within the schema bounds; each failed check gives its own error and an out-of-bounds group is refused by the save; it changes only the admin |
| GroupChat.UpdateSpec | playbuddy_backend/src/controllers/groupChat.controller.ts:210-318 | an update keeps membership, admin and creator; a given name passes the name rule; a given maxMembers is 2-30; a non-admin is refused |
| GroupChat.MaxMembersIsNotABound | playbuddy_backend/src/controllers/groupChat.controller.ts:271-299 | an update can lower maxMembers below the member count, after which a join still succeeds |
| GroupChat.UpdateSkipsSchema | playbuddy_backend/src/controllers/groupChat.controller.ts:288-305 | the update query stores a description longer than the schema's 300 |
| GroupChat.UpdatedGroupRefusesSaves | playbuddy_backend/src/models/groupChat.model.ts:19-39 | once the update query has stored such a description, every later save of the group fails: a join, a member's leave, a kick and a hand-over are all refused |
| GroupChat.JoinRespectsBoundFromBelow | playbuddy_backend/src/controllers/groupChat.controller.ts:394-401 | a join never takes a group at or below its bound past that bound |
| GroupChat.Delete | playbuddy_backend/src/controllers/groupChat.controller.ts:320-371 | only the admin deletes, and deleting dissolves the group |
| GroupChat.AllValidAfterSet | playbuddy_backend/src/models/groupChat.model.ts:51-72 | replacing one group by a valid group keeps every stored group valid |
| GroupChat.CreateKeepsAllValid | playbuddy_backend/src/controllers/groupChat.controller.ts:93-208 | create keeps every stored group valid |
| GroupChat.JoinKeepsAllValid | playbuddy_backend/src/controllers/groupChat.controller.ts:373-529 | join keeps every stored group valid |
| GroupChat.LeaveKeepsAllValid | playbuddy_backend/src/controllers/groupChat.controller.ts:531-621 | leave keeps every stored group valid |
| GroupChat.KickKeepsAllValid | playbuddy_backend/src/controllers/groupChat.controller.ts:623-702 | kick keeps every stored group valid |
| GroupChat.SetAdminKeepsAllValid | playbuddy_backend/src/controllers/groupChat.controller.ts:704-760 | set-as-admin keeps every stored group valid |
| GroupChat.UpdateKeepsAllValid | playbuddy_backend/src/controllers/groupChat.controller.ts:210-318 | update keeps every stored group valid |
| GroupChat.InviteSpec | playbuddy_backend/src/controllers/groupChat.controller.ts:762-903 | an invitation is stored only from a member to a non-member, with one notification to the receiver; inviting a member is refused |
| GroupChat.InviteAsWrittenInvitesMembers | playbuddy_backend/src/controllers/groupChat.controller.ts:792-818 | as written, inviting a member answers already-in-group yet stores a pending invitation to that member |
| GroupChat.ReportSpec | playbuddy_backend/src/controllers/groupChat.controller.ts:905-986 | a stored group report comes from a non-admin member, names a listed reason, has a description of at most 300, and is unacknowledged |
| GroupChatAdmin.ReportedGroupIdsCount | playbuddy_backend/src/controllers/admin.controller/groupChat.admin.controller.ts:31-45 | a group appears in the reported list once per report against it |
| GroupChatAdmin.UpdateAdminSpec | playbuddy_backend/src/controllers/admin.controller/groupChat.admin.controller.ts:106-163 | the admin update changes only the name and picture of one group; a changed name is the given one and matches the name pattern once trimmed; every group stays valid |
| GroupChatAdmin.UpdateAdminSkipsLength | playbuddy_backend/src/controllers/admin.controller/groupChat.admin.controller.ts:120-140 | unlike the group admin's update, no length bound is put on the name |
| GroupChatAdmin.AcknowledgeSpec | playbuddy_backend/src/controllers/admin.controller/groupChat.admin.controller.ts:165-189 | acknowledging succeeds exactly for a stored report, sets only its flag, and is idempotent |
| GroupChatAdmin.DeletionNoticesSpec | playbuddy_backend/src/controllers/admin.controller/groupChat.admin.controller.ts:220-240 | one deletion notice goes, in member order, to every member other than the acting admin |
| GroupChatAdmin.DeleteAdminIsGroupDeletePlusNotices | playbuddy_backend/src/controllers/admin.controller/groupChat.admin.controller.ts:191-247 | whoever acts, the admin delete succeeds on any existing group and equals the group delete plus the notices |
| Users.AddFriendSpec | playbuddy_backend/src/controllers/user.controller.ts:34-131 | a request is sent exactly when the target is given, is not the caller, both users exist, they are not friends and the request id is fresh; the pending request and one notification to the target are stored, and among users only the target's token may change |
| Users.AddFriendRepeatsRequests | playbuddy_backend/src/controllers/user.controller.ts:34-92 | a pending request from the caller to the target does not stop another identical one |
| Users.AddFriendAsWrittenVersusCorrected | playbuddy_backend/src/controllers/user.controller.ts:94-131 | as written and corrected refuse the same requests and store the same request; as written answers a server error exactly when the target has no token or the provider refuses |
| Users.AddFriendFailsWithoutToken | playbuddy_backend/src/controllers/user.controller.ts:94-131 | a target without a token makes the handler as written answer a server error after storing the request |
| Users.ReportUserSpec | playbuddy_backend/src/controllers/user.controller.ts:133-191 | a user report is stored exactly for one of the three reasons, a description of at most 300 and an existing target, unacknowledged and by the caller |
| Users.OldImageCleanup | playbuddy_backend/src/controllers/user.controller.ts:275-285 | at most one call: a current image hosted on the image service is destroyed, any other triggers nothing |
| Users.UpdateProfileOneField | playbuddy_backend/src/controllers/user.controller.ts:193-304 | only the caller's record changes, and in it only the field the request is about (name before password before image); nothing given is refused |
| Users.UpdateProfileNameSpec | playbuddy_backend/src/controllers/user.controller.ts:207-234 | a name is taken exactly when it matches the name pattern and is at least 3 long, and it is stored with its first letter upper-cased |
| Users.UpdateProfilePasswordSpec | playbuddy_backend/src/controllers/user.controller.ts:236-273 | without a name, a new password is taken exactly when it is at least 8 long, matches its confirmation and is not the old one; its hash is stored |
| Users.UpdateProfileImageSpec | playbuddy_backend/src/controllers/user.controller.ts:275-294 | an image alone is always taken, and the store's image-host log changes exactly when the previous image was hosted |
| Users.DeactivateSpec | playbuddy_backend/src/controllers/user.controller.ts:306-332 | deactivating marks the caller deactivated as of now and changes nothing else |
| Users.UpdateFcmTokenSpec | playbuddy_backend/src/controllers/user.controller.ts:334-367 | a token is required; for a known caller exactly that token is stored, repeating the call changes nothing, and a later push to the caller is attempted |
| Auth.DomainRegexMeaning | playbuddy_backend/src/controllers/auth.controller.ts:54 | the domain part `([\w-]+\.)+[\w-]{2,4}$` accepts exactly two or more dot-separated labels, the last 2-4 long |
| Auth.EmailRegexMeaning | playbuddy_backend/src/controllers/auth.controller.ts:54-55 | the e-mail pattern accepts exactly a non-empty local part of word characters, hyphens and dots, one `@`, and such a domain |
| Auth.SignupSpec | playbuddy_backend/src/controllers/auth.controller.ts:10-103 | a sign-up succeeds exactly when every field is given, the trimmed name is 3-20 long and matches the pattern, the trimmed password is at least 8 and equals the trimmed confirmation, the trimmed e-mail matches, no user holds its lower-cased form, and an avatar was generated; only the new user is added |
| Auth.SignupCheckOrder | playbuddy_backend/src/controllers/auth.controller.ts:20-45 | the trimmed name's length (3-20) is checked before the password's length, and that before the confirmation |
| Auth.SignupStores | playbuddy_backend/src/controllers/auth.controller.ts:63-90 | the stored user has the lower-cased e-mail, the cast name, the hash, and starts active; e-mails stay unique |
| Auth.SignupAdds | playbuddy_backend/src/controllers/auth.controller.ts:63-90 | a sign-up adds exactly the new user |
| Auth.SignupKeepsSurroundingSpaces | playbuddy_backend/src/controllers/auth.controller.ts:44-80 | surrounding spaces pass the checks but are kept in the stored name |
| Auth.LoginSpec | playbuddy_backend/src/controllers/auth.controller.ts:105-160 | a login succeeds exactly for given credentials, a found user, a matching password, no deactivation and no suspension, and names the user with that lower-cased e-mail; an unknown e-mail and a wrong password get the same answer; deactivation gets its own |
| Auth.CodeHasFourDigits | playbuddy_backend/src/controllers/auth.controller.ts:201 | a code drawn from 1000-9999 is written with four digits |
| Auth.ForgetThenVerify | playbuddy_backend/src/controllers/auth.controller.ts:177-219 | a well-formed e-mail gets the same answer whether known or not; an unknown one changes nothing; for a known one the four-digit code is stored and then verifies |
| Auth.VerifyOtpSpec | playbuddy_backend/src/controllers/auth.controller.ts:221-254 | verifying succeeds exactly when a code and an e-mail are given and the found user's stored code equals it; a cleared code never verifies |
| Auth.ResetPasswordSpec | playbuddy_backend/src/controllers/auth.controller.ts:256-321 | a reset succeeds exactly for a found user with a new password of at least 8 that equals its confirmation and differs from the old one; the new hash is stored, the code cleared, nothing else changes |
| Auth.ResetIgnoresCode | playbuddy_backend/src/controllers/auth.controller.ts:256-321 | the reset never looks at the stored code |
| Auth.ActivateUndoesDeactivate | playbuddy_backend/src/controllers/auth.controller.ts:323-350 | activating a just-deactivated user gives back the store as before |
| Auth.ActivateSpec | playbuddy_backend/src/controllers/auth.controller.ts:323-350 | activation succeeds exactly when a user is stored with the e-mail as sent, changes only that user's flags and is idempotent; for a lower-case e-mail the same user answers the login lookup and can log in unless suspended |
| Auth.ActivateIsCaseSensitive | playbuddy_backend/src/controllers/auth.controller.ts:328-339 | with every stored e-mail lower-case, as sign-up stores them, an e-mail sent with an upper-case letter is answered user-not-found |
| UserAdmin.Listing | playbuddy_backend/src/controllers/admin.controller/user.admin.controller.ts:16-29 | the user list holds only stored users |
| UserAdmin.ListingTracksName | playbuddy_backend/src/controllers/admin.controller/user.admin.controller.ts:16-29 | a user is listed exactly when its name is not the removed-account name, independently of the others |
| UserAdmin.SetSuspendedSpec | playbuddy_backend/src/controllers/admin.controller/user.admin.controller.ts:160-214 | (cancelling a) suspension succeeds exactly for a stored user, changes only its flag, is idempotent, and cancelling undoes suspending |
| UserAdmin.SuspendedCannotLogin | playbuddy_backend/src/controllers/admin.controller/user.admin.controller.ts:160-186 | a suspended user's login is refused, and with a matching password on an active account the answer names the suspension |
| UserAdmin.MissingReturnVersusAnswered | playbuddy_backend/src/controllers/admin.controller/user.admin.controller.ts:170-178 | a handler that does not return after its error response writes more than one response and escapes exactly when the step failed; the corrected handler writes one response, 200 exactly on success, with the same first write and store |
| UserAdmin.SuspensionHandlersAsWritten | playbuddy_backend/src/controllers/admin.controller/user.admin.controller.ts:160-214 | for an unknown user both suspension handlers as written write more than one response; for a known one they agree with the corrected ones |
| UserAdmin.AcknowledgeReportAsWrittenMissing | playbuddy_backend/src/controllers/admin.controller/user.admin.controller.ts:134-158 | the report acknowledgement as written does the same for an unknown report |
| UserAdmin.ChatsOf | playbuddy_backend/src/controllers/admin.controller/user.admin.controller.ts:238-250 | the chats of a sport type are exactly the groups of that type |
| UserAdmin.PlayersOf | playbuddy_backend/src/controllers/admin.controller/user.admin.controller.ts:238-263 | the players of a sport type are exactly the members of its chats |
| UserAdmin.SortRowsSpec | playbuddy_backend/src/controllers/admin.controller/user.admin.controller.ts:261 | the dashboard rows are sorted ascending by players and are a permutation of the input |
| UserAdmin.DropAllCount | playbuddy_backend/src/controllers/admin.controller/user.admin.controller.ts:265-267 | the filter drops exactly the rows named `all` and keeps every other row as often as it occurs |
| UserAdmin.DashboardCounts | playbuddy_backend/src/controllers/admin.controller/user.admin.controller.ts:216-283 | the dashboard counts the users, the online users (one per registry entry), the locations, and today's direct plus group messages |
| UserAdmin.DashboardRowsOrdered | playbuddy_backend/src/controllers/admin.controller/user.admin.controller.ts:238-278 | the sport-type rows are ascending by players and none is named `all` |
| UserAdmin.DashboardRowsComplete | playbuddy_backend/src/controllers/admin.controller/user.admin.controller.ts:238-278 | for a collection order listing every stored sport type once, every sport type not named `all` has its row shown and every row shown is the row of such a sport type |
| UserAdmin.UpdateProfileAdminAccepts | playbuddy_backend/src/controllers/admin.controller/user.admin.controller.ts:285-383 | the admin's profile update succeeds exactly when the user exists, a given name matches the pattern and is at least 3 long, and a given password is at least 8, equals its confirmation and differs from the old one |
| UserAdmin.UpdateProfileAdminStores | playbuddy_backend/src/controllers/admin.controller/user.admin.controller.ts:285-383 | the update stores every given field, destroys a hosted old image only when a new one is given, and returns the user with the password blanked |
| UserAdmin.AdminAndUserUpdatesAgree | playbuddy_backend/src/controllers/admin.controller/user.admin.controller.ts:302-320 | for a single field, the admin update and the user's own update store the same, except that the user's own update upper-cases the name's first letter |
| LocationAdmin.SportTypesFoundMeaning | playbuddy_backend/src/controllers/admin.controller/location.admin.controller.ts:64-70 | the count check passes exactly when every listed sport type is stored and none is listed twice |
| LocationAdmin.CreateLocationSpec | playbuddy_backend/src/controllers/admin.controller/location.admin.controller.ts:29-95 | a location is created exactly when name and description are given, the coordinates are non-zero, images and sport types are non-empty, every sport type is stored and listed once, no image is empty and the id is fresh |
| LocationAdmin.CreateLocationStores | playbuddy_backend/src/controllers/admin.controller/location.admin.controller.ts:29-95 | a created location holds the given name, description, coordinates, images and sport types under a fresh id; nothing else in the store changes, and sport-type references stay resolvable |
| LocationAdmin.RepeatedSportTypeRefused | playbuddy_backend/src/controllers/admin.controller/location.admin.controller.ts:64-70 | a sport type listed twice is refused even though it exists |
| LocationAdmin.AcceptedFormIsCreated | playbuddy_web/src/lib/zod.ts:3-38 | a form the web schema accepts, with its sport types stored and no image missing, is created by the server |
| LocationAdmin.HostedDeletionsSpec | playbuddy_backend/src/controllers/admin.controller/location.admin.controller.ts:129-145 | exactly the hosted old images are destroyed, each in the location-image folder, in order |
| LocationAdmin.UpdateLocationAccepts | playbuddy_backend/src/controllers/admin.controller/location.admin.controller.ts:97-174 | an update succeeds exactly for an existing location when a given non-empty sport-type list names stored sport types, each once |
| LocationAdmin.UpdateLocationEffects | playbuddy_backend/src/controllers/admin.controller/location.admin.controller.ts:129-161 | a field not given (empty, zero or absent) keeps its stored value; the old hosted images are destroyed exactly when a non-empty image list is given; no other location changes |
| LocationAdmin.UpdateLocationResolves | playbuddy_backend/src/controllers/admin.controller/location.admin.controller.ts:115-161 | an update keeps every stored location's sport types resolvable |
| LocationAdmin.EmptyListsReplace | playbuddy_backend/src/controllers/admin.controller/location.admin.controller.ts:147-154 | an empty image or sport-type array replaces the stored one, since arrays are truthy |
| LocationAdmin.DeleteLocationMatchesListing | playbuddy_backend/src/controllers/admin.controller/location.admin.controller.ts:176-232 | a stored location is deleted exactly when no chat is listed there, and none is listed there afterwards |
| LocationAdmin.DeleteLocationSpec | playbuddy_backend/src/controllers/admin.controller/location.admin.controller.ts:176-232 | a location is deleted exactly when it exists and no group uses it; one destroy per hosted image is logged, and every reference from groups and to sport types stays resolvable |
| SportTypeAdmin.CaseVariantHitsIndex | playbuddy_backend/src/controllers/admin.controller/sportType.admin.controller.ts:45-54 | as written, a name differing only in case from a stored one passes the duplicate check and is refused by the store |
| SportTypeAdmin.SpacedVariantStored | playbuddy_backend/src/controllers/admin.controller/sportType.admin.controller.ts:36-54 | as written, a name with surrounding spaces passes every check and is stored beside its trimmed twin |
| SportTypeAdmin.KeyIdempotent | playbuddy_backend/src/controllers/admin.controller/sportType.admin.controller.ts:54 | the normalised key of a key is itself |
| SportTypeAdmin.CreateSportTypeAccepts | playbuddy_backend/src/controllers/admin.controller/sportType.admin.controller.ts:22-67 | the corrected create succeeds exactly for a valid name whose normalised key no stored sport type holds and a fresh id, and stores the key |
| SportTypeAdmin.UpdateSportTypeAccepts | playbuddy_backend/src/controllers/admin.controller/sportType.admin.controller.ts:69-126 | the corrected update succeeds exactly for a valid name whose normalised key no stored sport type holds and an existing id, and stores the key |
| SportTypeAdmin.StoreFreeKey | playbuddy_backend/src/models/sportType.model.ts:9-13 | storing a free key never violates the unique index and keeps names unique and normalised |
| SportTypeAdmin.SameKeyRefused | playbuddy_backend/src/controllers/admin.controller/sportType.admin.controller.ts:45-52 | the corrected handlers refuse every name whose key is already stored |
| SportTypeAdmin.CreateAsWrittenVersusCorrected | playbuddy_backend/src/controllers/admin.controller/sportType.admin.controller.ts:22-67 | on already normalised names, as written and corrected agree |
| SportTypeAdmin.DeleteSportTypeSpec | playbuddy_backend/src/controllers/admin.controller/sportType.admin.controller.ts:128-173 | a sport type is deleted exactly when it exists and no group or location uses it; only it is removed and every reference to a sport type stays resolvable |
| Deactivation.DeletedEmailInjective | playbuddy_backend/src/libs/cron/deactivatedUsersCheck.ts:22 | different accounts get different replacement e-mails |
| Deactivation.SweepChangesOnlyFound | playbuddy_backend/src/libs/cron/deactivatedUsersCheck.ts:18-37 | whatever happens, each account is either untouched or, if found, anonymised in name, e-mail and picture only |
| Deactivation.SweepAnonymisesFound | playbuddy_backend/src/libs/cron/deactivatedUsersCheck.ts:18-31 | without an e-mail clash the run completes, every found account is anonymised and every other is untouched |
| Deactivation.SweepIdempotent | playbuddy_backend/src/libs/cron/deactivatedUsersCheck.ts:8-31 | a second run at the same time selects the same accounts and changes nothing |
| Deactivation.SweepHidesFromListing | playbuddy_backend/src/libs/cron/deactivatedUsersCheck.ts:20 | after the run the admin's user list drops exactly the found accounts |
| Deactivation.DueAfterAWeek | playbuddy_backend/src/libs/cron/deactivatedUsersCheck.ts:8-15 | an account deactivated at t is selected exactly from t plus seven days on |
| Deactivation.ReactivatedNeverDue | playbuddy_backend/src/libs/cron/deactivatedUsersCheck.ts:12-15 | a reactivated account is never selected |
| Reset.ResetDataSpec | playbuddy_backend/src/utils/helper.ts:14-27 | after a reset nobody has friends, requests, invitations, notifications or direct chats; the other collections are unchanged |
| Reset.ResetDataIdempotent | playbuddy_backend/src/utils/helper.ts:14-27 | resetting twice is resetting once |
| Reset.ResetOrphansMessages | playbuddy_backend/src/utils/helper.ts:14-27 | direct messages survive the reset but no user can list them |

## Left out

- MongoDB itself is not modelled: queries, `populate`, aggregation pipelines, indexes other than the e-mail and sport-type unique keys, and transactions. Stored records are maps keyed by id. A fresh id that collides is refused with `DuplicateKey`.
- Ids that are not valid ObjectIds make Mongoose throw a CastError, which the handlers answer with 500. The model takes every id as well formed.
- The image host (Cloudinary), Firebase Cloud Messaging, bcrypt, JSON Web Tokens, the mail sender and DiceBear are all external:
  - image-host calls are logged as operations;
  - a push is modelled by its decision and the provider's reply;
  - hashing and password comparison are inputs (`hashed`, `usesOldPassword`, `matches`);
  - the avatar from `generateAvatar` is the `avatar` input;
  - the reset e-mail is not modelled.
- `deleteFolderAndImagesFromCloudinary` lists the folder's resources, deletes them page by page, then removes the folder. It is modelled as one `DeleteFolder` operation.
- Some sorts are not fully determined. For notifications created at the same time, the model keeps their store order in the feed sort by `createdAt`. MongoDB's order for equal keys is unspecified. The name-sorted listings (`getAllUsers`, user search, location and sport-type lists) are modelled as sets.
- String lengths are counted in characters, not UTF-16 code units. Case mapping is ASCII only. `NaN` coordinates are not modelled; a coordinate is a real number or absent.
- The dashboard's "today" message counts and the online count come from queries and the socket registry. They are inputs to `UserAdmin.DashboardOf`.
- The plain read handlers return one lookup or query answer unchanged, so they are not modelled beyond the listings above: `getUsersByName` (its parameter is a case-insensitive regular expression, and pattern matching is not modelled), `getFriendRequestById`, `getGroupInvitationById`, the group-chat admin's `getAllGroupChats`, `getAllGroupChatReports` and `getGroupChatByIdAdmin` (whose ObjectId check answers 400), the user admin's `getUserGroupChatNumber`, `getUserFriendNumber`, `getReportedUsers`, `getUsersById` and `getAllUserReports`, and the location and sport-type lists.
- `getAllUserFriends` has a missing `return` after its 400 when the caller id is absent (friendship.controller.ts:94). The authentication middleware always sets the caller id, so that branch is unreachable.
- Socket.IO transport, reconnection and acknowledgements are not modelled, and neither is the ordering of events across sockets. `Presence.Run` applies events one at a time.
- The job's `cron` schedule (daily at midnight) is not modelled. `Deactivation.Sweep` is one run at a given time `now`. The order of the found accounts is the query's answer.
- Concurrency between requests is not modelled. Every handler is one atomic step on the store.
- The text of push notifications is not modelled: titles, bodies (a message's text, or a stock phrase for an image-only message), sender names and images. A push is modelled by whether it is sent, and whether as a data message or as a displayed notification.
- Schema validation on save is modelled for group chats only: the save refuses a group whose name, description or maxMembers is outside the schema's bounds. The skill enum always passes, because the model's skill is an enumeration. User saves do not re-check the user schema's bounds (a name of at least 3, a stored password of at least 8). The handlers that set a name check that bound first, the deactivation job sets `Deleted User`, and a stored password is a bcrypt hash.
- UserAdmin.DashboardOf: the aggregation's `sort("totalUsersInGroups")` leaves the order of sport types with equal counts unspecified. The model's `SortRows` is stable, so such ties keep the collection order `order`; `UserAdmin.DashboardRowsOrdered` states only the ascending order.
- The web client's `SportTypePage` lower-cases a new sport type's name before sending it (playbuddy_web/src/pages/home/sportType/SportTypePage.tsx:82). It sends an edited name as typed (line 96). The client is not part of this model. The server-side findings below hold for any client.
- Deactivation.SweepIdempotent: proved only for a run that completes without an e-mail clash. A run stopped by a clash leaves the remaining accounts for the next day.
- GroupChat.InviteSpec and GroupChat.ReportSpec: the success direction is stated (what a stored invitation or report satisfies), but not every refusal's error code.
- UserAdmin.Listing: states only that listed users are stored users. What decides listing is stated by `UserAdmin.ListingTracksName`.
- GroupChat.Dissolve: the contract states the group's removal. What happens to messages and images is stated by `GroupChat.PurgeGroupMessages` and `GroupChat.GroupImageCleanup`.

## Findings

| source | as written | input that shows it | evidently intended | confidence | as-written member | corrected member |
|---|---|---|---|---|---|---|
| playbuddy_backend/src/controllers/groupMessage.controller.ts:81-150 | the push loop answers `return res.status(200)` on the first not-registered token, ending the loop | a group whose first receiver has a dead token and whose second has a live one: only the first is pushed to | every receiver with a token gets its push and every dead token is unset | not executed | Push.GroupPushAsWritten (Push.AsWrittenSkipsLaterReceivers, Push.AsWrittenIsPrefix) | Push.GroupPushAll (GroupMessages.SendUnsetsEveryDeadToken) |
| playbuddy_backend/src/controllers/user.controller.ts:94-120 | `addFriend` pushes without checking that the receiver has a token and without catching a provider failure | a target with no push token: the request and its notification are stored, then the handler answers 500 | the single-receiver pattern used elsewhere: skip a missing token, unset a dead one, answer success | not executed | Users.AddFriendAsWritten (Users.AddFriendFailsWithoutToken, Users.AddFriendAsWrittenVersusCorrected) | Users.AddFriend (Users.AddFriendSpec) |
| playbuddy_backend/src/controllers/groupChat.controller.ts:792-818 | the "already in this group" 400 has no `return`, so the invitation is still saved | inviting a receiver who is already a member: the answer says 400, yet a pending invitation to that member is stored | the 400 ends the handler and nothing is stored | not executed | GroupChat.InviteAsWritten (GroupChat.InviteAsWrittenInvitesMembers) | GroupChat.Invite (GroupChat.InviteSpec) |
| playbuddy_backend/src/controllers/admin.controller/user.admin.controller.ts:173-175 | `suspendAccount` (and `cancelAccountSuspension`, lines 201-203) writes 404 without `return` and goes on to write 200; the second write throws and the catch writes 500 | an unknown user id: three responses are attempted, 404 then 200 then 500 | one 404 response | not executed | UserAdmin.SuspendAccountAsWritten, UserAdmin.CancelSuspensionAsWritten (UserAdmin.SuspensionHandlersAsWritten, UserAdmin.MissingReturnVersusAnswered) | UserAdmin.SuspendAccount, UserAdmin.CancelSuspension (UserAdmin.SetSuspendedSpec) |
| playbuddy_backend/src/controllers/admin.controller/groupChat.admin.controller.ts:180-182 | `acknowledgeGroupChatReport` (and the user-report `acknowledgeReport`, user.admin.controller.ts:149-151) writes 404 without `return` | an unknown report id: 404 then 200 then 500 | one 404 response | not executed | UserAdmin.AcknowledgeReportAsWritten (UserAdmin.AcknowledgeReportAsWrittenMissing) | UserAdmin.AcknowledgeReport (GroupChatAdmin.AcknowledgeSpec) |
| playbuddy_backend/src/controllers/admin.controller/sportType.admin.controller.ts:45-54 | the duplicate check compares the raw name, but the name is stored lower-cased and the unique index is on the stored name; surrounding spaces are checked on the trimmed name but stored as given | `"Tennis"` when `"tennis"` is stored: the check passes and the store refuses it, giving 500; `" tennis"` is stored beside `"tennis"` | compare and store one normalised key (trimmed, lower-cased), refusing a duplicate with 400 | not executed | SportTypeAdmin.CreateSportTypeAsWritten (SportTypeAdmin.CaseVariantHitsIndex, SportTypeAdmin.SpacedVariantStored) | SportTypeAdmin.CreateSportType (SportTypeAdmin.StoreFreeKey, SportTypeAdmin.SameKeyRefused) |
