/** The daily job that anonymises accounts deactivated for a week or
    more: their name, e-mail and picture are replaced; the rest of the
    record, the deactivation flag included, stays. Times are milliseconds
    since the epoch, as `Date.now()` counts them. */
module Deactivation {
  import opened Wrappers
  import opened Records
  import opened Seqs
  import Users
  import UserAdmin
  import Auth

  /** Seven days in milliseconds. */
  const Week := 7 * 24 * 60 * 60 * 1000

  const DeletedImage := "https://www.shutterstock.com/image-vector/user-removal-linear-style-icon-600nw-2473043843.jpg"

  /** The e-mail an anonymised account gets. */
  function DeletedEmail(id: UserId): (e: string)
  {
    id + "@deleted.com"
  }

  /** Different accounts get different e-mails. */
  lemma DeletedEmailInjective(a: UserId, b: UserId)
    ensures DeletedEmail(a) == DeletedEmail(b) ==> a == b
  {
    if DeletedEmail(a) == DeletedEmail(b) {
      assert |a| == |b|;
      assert a == DeletedEmail(a)[..|a|] && b == DeletedEmail(b)[..|b|];
    }
  }

  /** The query `{ isDeactivate: true, deactivatedAt: { $lte: now - 7 days } }`;
      a record without a date does not match. */
  predicate Due(u: User, now: int) {
    u.isDeactivate && u.deactivatedAt.Some? && u.deactivatedAt.value <= now - Week
  }

  /** The ids the query selects. */
  function DueIds(users: map<UserId, User>, now: int): (ids: set<UserId>)
    ensures ids <= users.Keys
  {
    set id | id in users && Due(users[id], now)
  }

  /** One account after the job: the three fields replaced. */
  function Anonymised(u: User, id: UserId): (a: User)
  {
    u.(name := UserAdmin.DeletedName, email := DeletedEmail(id), image := DeletedImage)
  }

  /** The unique index on e-mails refuses saving `id`'s new e-mail when
      another account already holds it. */
  predicate Clash(users: map<UserId, User>, id: UserId) {
    exists v :: v in users && v != id && users[v].email == DeletedEmail(id)
  }

  /** What a run leaves behind, and whether it went through every found
      account (a refused save throws, and the job's `catch` ends the run). */
  datatype Swept = Swept(users: map<UserId, User>, completed: bool)

  /** The loop over the found accounts, in the order the query returns
      them: each is anonymised and saved in turn. */
  function Sweep(users: map<UserId, User>, found: seq<UserId>): (r: Swept)
    requires forall i :: 0 <= i < |found| ==> found[i] in users
    ensures r.users.Keys == users.Keys
  {
    if found == [] then Swept(users, true)
    else if Clash(users, found[0]) then Swept(users, false)
    else
      var id := found[0];
      Sweep(users[id := Anonymised(users[id], id)], found[1..])
  }

  /** Whatever happens, every account is either untouched or anonymised,
      only found accounts are anonymised, and apart from name, e-mail and
      picture no field changes. */
  lemma {:induction false} SweepChangesOnlyFound(users: map<UserId, User>, found: seq<UserId>)
    requires forall i :: 0 <= i < |found| ==> found[i] in users
    ensures var r := Sweep(users, found).users;
            forall id :: id in users ==>
              r[id] == users[id] || (id in found && r[id] == Anonymised(users[id], id))
  {
    if found != [] && !Clash(users, found[0]) {
      var id := found[0];
      var next := users[id := Anonymised(users[id], id)];
      SweepChangesOnlyFound(next, found[1..]);
      forall v | v in users
        ensures Sweep(users, found).users[v] == users[v]
                || (v in found && Sweep(users, found).users[v] == Anonymised(users[v], v))
      {
        if v == id {
          assert Anonymised(Anonymised(users[v], v), v) == Anonymised(users[v], v);
        }
      }
    }
  }

  /** No other account holds the e-mail any found account is given. */
  predicate NoClash(users: map<UserId, User>, found: seq<UserId>) {
    forall v, i :: v in users && 0 <= i < |found| && v != found[i] ==> users[v].email != DeletedEmail(found[i])
  }

  /** Without a clash the run goes through: every found account is
      anonymised and every other account is untouched. */
  lemma {:induction false} SweepAnonymisesFound(users: map<UserId, User>, found: seq<UserId>)
    requires forall i :: 0 <= i < |found| ==> found[i] in users
    requires Distinct(found) && NoClash(users, found)
    ensures var r := Sweep(users, found);
            && r.completed
            && (forall id :: id in users && id in found ==> r.users[id] == Anonymised(users[id], id))
            && (forall id :: id in users && id !in found ==> r.users[id] == users[id])
  {
    if found != [] {
      var id := found[0];
      var next := users[id := Anonymised(users[id], id)];
      var rest := found[1..];
      assert Distinct(rest) by {
        forall i, j | 0 <= i < j < |rest| ensures rest[i] != rest[j] {
          assert rest[i] == found[i + 1] && rest[j] == found[j + 1];
        }
      }
      assert id !in rest by {
        forall k | 0 <= k < |rest| ensures rest[k] != id {
          assert rest[k] == found[k + 1];
        }
      }
      assert NoClash(next, rest) by {
        forall v, i | v in next && 0 <= i < |rest| && v != rest[i]
          ensures next[v].email != DeletedEmail(rest[i])
        {
          assert rest[i] == found[i + 1];
          if v == id {
            DeletedEmailInjective(id, rest[i]);
          }
        }
      }
      SweepAnonymisesFound(next, rest);
      forall v | v in users && v in found
        ensures Sweep(users, found).users[v] == Anonymised(users[v], v)
      {
        if v != id {
          assert v in rest;
        }
      }
    }
  }

  /** A completed run is a fixed point: running the job again at the same
      time finds the same accounts and changes nothing, because the job
      keeps the deactivation flag and date. */
  lemma SweepIdempotent(users: map<UserId, User>, found: seq<UserId>, now: int)
    requires Distinct(found) && (forall i :: 0 <= i < |found| ==> found[i] in users)
    requires (set id | id in found) == DueIds(users, now)
    requires NoClash(users, found)
    ensures var after := Sweep(users, found).users;
            && DueIds(after, now) == DueIds(users, now)
            && NoClash(after, found)
            && Sweep(after, found) == Sweep(users, found)
  {
    SweepAnonymisesFound(users, found);
    var after := Sweep(users, found).users;
    assert DueIds(after, now) == DueIds(users, now) by {
      forall id | id in users ensures Due(after[id], now) == Due(users[id], now) {
        if id in found {
          assert after[id] == Anonymised(users[id], id);
        }
      }
    }
    assert NoClash(after, found) by {
      forall v, i | v in after && 0 <= i < |found| && v != found[i]
        ensures after[v].email != DeletedEmail(found[i])
      {
        if v in found {
          DeletedEmailInjective(v, found[i]);
        }
      }
    }
    SweepAnonymisesFound(after, found);
    var again := Sweep(after, found).users;
    assert again == after by {
      forall id | id in users ensures again[id] == after[id] {
        if id in found {
          assert after[id] == Anonymised(users[id], id);
          assert Anonymised(after[id], id) == after[id];
        }
      }
    }
  }

  /** After a completed run the admin's user list no longer shows the due
      accounts and shows every other account it showed before. */
  lemma SweepHidesFromListing(users: map<UserId, User>, found: seq<UserId>)
    requires Distinct(found) && (forall i :: 0 <= i < |found| ==> found[i] in users)
    requires NoClash(users, found)
    ensures UserAdmin.Listing(Sweep(users, found).users) == UserAdmin.Listing(users) - (set id | id in found)
  {
    SweepAnonymisesFound(users, found);
  }

  /** An account deactivated at time `t` is due exactly from `t` plus
      seven days on. */
  lemma DueAfterAWeek(db: Db, caller: UserId, t: int, now: int)
    requires caller in db.users
    ensures Users.Deactivate(db, caller, t).Ok?
    ensures var d := Users.Deactivate(db, caller, t).value;
            Due(d.users[caller], now) <==> now >= t + Week
  {
  }

  /** Signing in to a deactivated account reactivates it, after which the
      job never selects it. */
  lemma ReactivatedNeverDue(db: Db, id: UserId, now: int)
    requires id in db.users
    ensures Auth.Activate(db, Some(id)).Ok?
    ensures id !in DueIds(Auth.Activate(db, Some(id)).value.users, now)
  {
  }
}
