/** Group invitations: the listing filter and rejecting an invitation
    (sending and accepting live with the group-chat handlers). */
module GroupInvitations {
  import opened Wrappers
  import opened Records

  datatype Error = InvitationIdRequired | InvitationNotFound | NotAllowed

  /** `getAllUserGroupInvitations`: by side (`type`) and optionally by
      exact status. */
  function List(db: Db, caller: UserId, kind: string, status: string): (ids: set<RecordId>)
    ensures ids <= db.invitations.Keys
  {
    set id | id in db.invitations
             && OnSide(kind, caller, db.invitations[id].sender, db.invitations[id].receiver)
             && StatusSelected(status, db.invitations[id].status)
  }

  /** A listing holds exactly the invitations on the caller's chosen side
      with the chosen status; without a status it holds every status. */
  lemma ListSelects(db: Db, caller: UserId, kind: string, status: string)
    ensures forall id :: id in List(db, caller, kind, status) <==>
              id in db.invitations
              && (kind == "sent" ==> db.invitations[id].sender == caller)
              && (kind == "received" ==> db.invitations[id].receiver == caller)
              && (kind != "sent" && kind != "received" ==>
                    db.invitations[id].sender == caller || db.invitations[id].receiver == caller)
              && (status != "" ==> StatusName(db.invitations[id].status) == status)
  {
  }

  /** `rejectGroupInvitation`: only the receiver may reject, whatever the
      invitation's status. */
  function Reject(db: Db, caller: UserId, invId: RecordId): (r: Result<Db, Error>)
  {
    if invId == "" then Err(InvitationIdRequired) else
    :- Need(invId in db.invitations, InvitationNotFound);
    :- Need(db.invitations[invId].receiver == caller, NotAllowed);
    Ok(db.(invitations := db.invitations[invId := db.invitations[invId].(status := Rejected)]))
  }

  /** Rejecting succeeds exactly for the receiver of a stored invitation,
      also an accepted or old one, and changes that invitation's status to
      rejected and nothing else. */
  lemma RejectSpec(db: Db, caller: UserId, invId: RecordId)
    ensures var r := Reject(db, caller, invId);
            && (r.Ok? <==> invId != "" && invId in db.invitations && db.invitations[invId].receiver == caller)
            && (invId == "" ==> r == Err(InvitationIdRequired))
            && (r.Ok? ==>
                  && r.value.invitations.Keys == db.invitations.Keys
                  && r.value.invitations[invId] == db.invitations[invId].(status := Rejected)
                  && (forall id :: id in db.invitations && id != invId ==>
                        r.value.invitations[id] == db.invitations[id])
                  && r.value == db.(invitations := r.value.invitations))
  {
  }
}
