/** The notification feed: which of the caller's notifications are shown,
    in which order, and marking them all as read. Notifications are kept in
    creation order; the feed orders by `createdAt`, newest first. */
module Notifications {
  import opened Records

  /** How many notifications the feed aims to show. */
  const FeedSize := 5

  /** The caller's notifications with the given read flag, in store order. */
  function Mine(ns: seq<Notification>, user: UserId, read: bool): (r: seq<Notification>)
    ensures |r| <= |ns|
    ensures forall i :: 0 <= i < |r| ==> r[i].receiver == user && r[i].isRead == read
  {
    if ns == [] then []
    else (if ns[0].receiver == user && ns[0].isRead == read then [ns[0]] else []) + Mine(ns[1..], user, read)
  }

  /** The selection keeps exactly the caller's notifications with that
      flag. */
  lemma {:induction false} MineMembers(ns: seq<Notification>, user: UserId, read: bool)
    ensures forall n :: n in Mine(ns, user, read) <==> n in ns && n.receiver == user && n.isRead == read
  {
    if ns != [] {
      MineMembers(ns[1..], user, read);
      assert forall n :: n in ns <==> n == ns[0] || n in ns[1..];
    }
  }

  predicate NewestFirst(s: seq<Notification>) {
    forall i, j :: 0 <= i < j < |s| ==> s[i].createdAt >= s[j].createdAt
  }

  /** Puts `n` into a newest-first sequence, before the ones as old as it. */
  function Insert(n: Notification, s: seq<Notification>): (r: seq<Notification>)
  {
    if s == [] then [n]
    else if n.createdAt >= s[0].createdAt then [n] + s
    else [s[0]] + Insert(n, s[1..])
  }

  /** `.sort("-createdAt")`: newest first; notifications created at the
      same time keep their store order. */
  function SortNewestFirst(s: seq<Notification>): (r: seq<Notification>)
  {
    if s == [] then [] else Insert(s[0], SortNewestFirst(s[1..]))
  }

  /** Inserting keeps every notification and adds `n` once. */
  lemma {:induction false} InsertKeeps(n: Notification, s: seq<Notification>)
    ensures multiset(Insert(n, s)) == multiset(s) + multiset{n}
  {
    if s != [] {
      assert s == [s[0]] + s[1..];
      if n.createdAt < s[0].createdAt {
        InsertKeeps(n, s[1..]);
      }
    }
  }

  /** Inserting below a bound every element already meets keeps it. */
  lemma {:induction false} InsertBelow(n: Notification, s: seq<Notification>, bound: int)
    requires n.createdAt <= bound
    requires forall k :: 0 <= k < |s| ==> s[k].createdAt <= bound
    ensures forall k :: 0 <= k < |Insert(n, s)| ==> Insert(n, s)[k].createdAt <= bound
  {
    if s != [] && n.createdAt < s[0].createdAt {
      InsertBelow(n, s[1..], bound);
    }
  }

  /** Inserting into a newest-first sequence keeps it newest first. */
  lemma {:induction false} InsertOrders(n: Notification, s: seq<Notification>)
    requires NewestFirst(s)
    ensures NewestFirst(Insert(n, s))
  {
    if s != [] && n.createdAt < s[0].createdAt {
      InsertOrders(n, s[1..]);
      InsertBelow(n, s[1..], s[0].createdAt);
    }
  }

  lemma InsertSpec(n: Notification, s: seq<Notification>)
    requires NewestFirst(s)
    ensures NewestFirst(Insert(n, s))
    ensures multiset(Insert(n, s)) == multiset(s) + multiset{n}
  {
    InsertKeeps(n, s);
    InsertOrders(n, s);
  }

  /** Sorting keeps exactly the same notifications. */
  lemma {:induction false} SortKeeps(s: seq<Notification>)
    ensures multiset(SortNewestFirst(s)) == multiset(s)
  {
    if s != [] {
      SortKeeps(s[1..]);
      InsertKeeps(s[0], SortNewestFirst(s[1..]));
      assert s == [s[0]] + s[1..];
    }
  }

  /** Sorting orders newest first. */
  lemma {:induction false} SortOrders(s: seq<Notification>)
    ensures NewestFirst(SortNewestFirst(s))
  {
    if s != [] {
      SortOrders(s[1..]);
      InsertOrders(s[0], SortNewestFirst(s[1..]));
    }
  }

  /** The sort orders newest first and keeps exactly the same
      notifications. */
  lemma SortSpec(s: seq<Notification>)
    ensures NewestFirst(SortNewestFirst(s))
    ensures multiset(SortNewestFirst(s)) == multiset(s)
    ensures |SortNewestFirst(s)| == |s|
  {
    SortKeeps(s);
    SortOrders(s);
    assert |SortNewestFirst(s)| == |multiset(SortNewestFirst(s))|;
  }

  /** `getAllNotifications`: every unread notification of the caller,
      newest first; when fewer than five, followed by the newest read ones
      up to five in all. */
  function Feed(ns: seq<Notification>, user: UserId): (feed: seq<Notification>)
  {
    var unread := SortNewestFirst(Mine(ns, user, false));
    if |unread| < FeedSize then
      var read := SortNewestFirst(Mine(ns, user, true));
      unread + read[..if FeedSize - |unread| <= |read| then FeedSize - |unread| else |read|]
    else unread
  }

  function Max(a: int, b: int): int { if a >= b then a else b }
  function Min(a: int, b: int): int { if a <= b then a else b }

  /** The caller's notifications with one read flag, newest first. */
  lemma SortedMine(ns: seq<Notification>, user: UserId, read: bool)
    ensures var s := SortNewestFirst(Mine(ns, user, read));
            && |s| == |Mine(ns, user, read)| && NewestFirst(s)
            && multiset(s) == multiset(Mine(ns, user, read))
            && forall i :: 0 <= i < |s| ==> s[i].receiver == user && s[i].isRead == read && s[i] in ns
  {
    var m := Mine(ns, user, read);
    SortSpec(m);
    MineMembers(ns, user, read);
    var s := SortNewestFirst(m);
    forall i | 0 <= i < |s| ensures s[i].receiver == user && s[i].isRead == read && s[i] in ns {
      assert s[i] in multiset(m);
      assert s[i] in m;
    }
  }

  /** A newest-first sequence stays newest first when cut. */
  lemma PrefixNewestFirst(s: seq<Notification>, k: nat)
    requires NewestFirst(s) && k <= |s|
    ensures NewestFirst(s[..k])
  {
    forall i, j | 0 <= i < j < k ensures s[..k][i].createdAt >= s[..k][j].createdAt {
      assert s[..k][i] == s[i] && s[..k][j] == s[j];
    }
  }

  /** With u unread and r read notifications of the caller, the feed holds
      max(u, min(5, u + r)) of them, and with five or more unread no read
      one. */
  lemma FeedLength(ns: seq<Notification>, user: UserId)
    ensures var u := |Mine(ns, user, false)|;
            var r := |Mine(ns, user, true)|;
            && |Feed(ns, user)| == Max(u, Min(FeedSize, u + r))
            && (u >= FeedSize ==> Feed(ns, user) == SortNewestFirst(Mine(ns, user, false)))
  {
    SortLength(Mine(ns, user, false));
    SortLength(Mine(ns, user, true));
    FeedSplitLength(ns, user);
    FeedAllUnread(ns, user);
  }

  /** Sorting keeps the length. */
  lemma SortLength(s: seq<Notification>)
    ensures |SortNewestFirst(s)| == |s|
  {
    SortSpec(s);
  }

  /** The feed's length in terms of the sorted parts. */
  lemma FeedSplitLength(ns: seq<Notification>, user: UserId)
    ensures |Feed(ns, user)| == |SortNewestFirst(Mine(ns, user, false))| + ReadShown(ns, user)
  {
    FeedSplit(ns, user);
  }

  /** With five or more unread notifications the feed is exactly those. */
  lemma FeedAllUnread(ns: seq<Notification>, user: UserId)
    ensures |SortNewestFirst(Mine(ns, user, false))| >= FeedSize ==>
              Feed(ns, user) == SortNewestFirst(Mine(ns, user, false))
  {
    var unread := SortNewestFirst(Mine(ns, user, false));
    if |unread| >= FeedSize {
      FeedSplit(ns, user);
      assert unread + SortNewestFirst(Mine(ns, user, true))[..0] == unread;
    }
  }

  /** The feed shows all the caller's unread notifications first, newest
      first, then read ones, newest first, and nobody else's. */
  lemma FeedOrder(ns: seq<Notification>, user: UserId)
    ensures var u := |Mine(ns, user, false)|;
            var feed := Feed(ns, user);
            && u <= |feed|
            && multiset(feed[..u]) == multiset(Mine(ns, user, false))
            && NewestFirst(feed[..u]) && NewestFirst(feed[u..])
            && (forall i :: 0 <= i < |feed| ==> feed[i].receiver == user && feed[i] in ns)
            && (forall i :: 0 <= i < |feed| ==> (feed[i].isRead <==> i >= u))
  {
    SortedMine(ns, user, false);
    SortedMine(ns, user, true);
    var read := SortNewestFirst(Mine(ns, user, true));
    var k := ReadShown(ns, user);
    FeedSplit(ns, user);
    FeedParts(ns, user, SortNewestFirst(Mine(ns, user, false)), read, k);
  }

  /** How many read notifications the feed shows. */
  function ReadShown(ns: seq<Notification>, user: UserId): (k: nat)
    ensures var u := |SortNewestFirst(Mine(ns, user, false))|;
            var r := |SortNewestFirst(Mine(ns, user, true))|;
            && k <= r && u + k == Max(u, Min(FeedSize, u + r)) && (u >= FeedSize ==> k == 0)
  {
    var u := |SortNewestFirst(Mine(ns, user, false))|;
    var r := |SortNewestFirst(Mine(ns, user, true))|;
    if u < FeedSize then Min(FeedSize - u, r) else 0
  }

  /** The feed is the sorted unread notifications followed by the newest
      `ReadShown` read ones. */
  lemma FeedSplit(ns: seq<Notification>, user: UserId)
    ensures Feed(ns, user) == SortNewestFirst(Mine(ns, user, false))
                              + SortNewestFirst(Mine(ns, user, true))[..ReadShown(ns, user)]
  {
    if |SortNewestFirst(Mine(ns, user, false))| >= FeedSize {
      assert SortNewestFirst(Mine(ns, user, true))[..0] == [];
    }
  }

  /** The caller's unread notifications followed by read ones, each part
      newest first, split back at the number of unread ones. */
  lemma FeedParts(ns: seq<Notification>, user: UserId, unread: seq<Notification>, read: seq<Notification>, k: nat)
    requires NewestFirst(unread) && NewestFirst(read) && k <= |read|
    requires forall i :: 0 <= i < |unread| ==> unread[i].receiver == user && !unread[i].isRead && unread[i] in ns
    requires forall i :: 0 <= i < |read| ==> read[i].receiver == user && read[i].isRead && read[i] in ns
    ensures var feed := unread + read[..k];
            && feed[..|unread|] == unread && NewestFirst(feed[|unread|..])
            && (forall i :: 0 <= i < |feed| ==> feed[i].receiver == user && feed[i] in ns)
            && (forall i :: 0 <= i < |feed| ==> (feed[i].isRead <==> i >= |unread|))
  {
    var feed := unread + read[..k];
    assert feed[..|unread|] == unread;
    assert feed[|unread|..] == read[..k];
    PrefixNewestFirst(read, k);
    forall i | 0 <= i < |feed|
      ensures feed[i].receiver == user && feed[i] in ns && (feed[i].isRead <==> i >= |unread|)
    {
      if i >= |unread| {
        assert feed[i] == read[i - |unread|];
      } else {
        assert feed[i] == unread[i];
      }
    }
  }

  /** `markNotificationAsRead`: every notification of the caller becomes
      read. */
  function MarkAllRead(ns: seq<Notification>, user: UserId): (r: seq<Notification>)
  {
    seq(|ns|, i requires 0 <= i < |ns| => if ns[i].receiver == user then ns[i].(isRead := true) else ns[i])
  }

  /** Marking touches only the caller's notifications, leaves all of them
      read and nothing else about them changed, and marking again changes
      nothing; afterwards the caller has no unread notification. */
  lemma MarkAllReadSpec(ns: seq<Notification>, user: UserId)
    ensures var r := MarkAllRead(ns, user);
            && |r| == |ns|
            && (forall i :: 0 <= i < |ns| && ns[i].receiver == user ==> r[i] == ns[i].(isRead := true))
            && (forall i :: 0 <= i < |ns| && ns[i].receiver != user ==> r[i] == ns[i])
            && MarkAllRead(r, user) == r
            && Mine(r, user, false) == []
  {
    var r := MarkAllRead(ns, user);
    forall n | n in r && n.receiver == user ensures n.isRead {
      var i :| 0 <= i < |r| && r[i] == n;
    }
    MineMembers(r, user, false);
    if Mine(r, user, false) != [] {
      assert Mine(r, user, false)[0] in Mine(r, user, false);
    }
  }
}
