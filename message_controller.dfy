/** The message controller: one conversation as a page of messages, the
    list of a user's conversations, and marking messages as read. The
    `Message` collection is a sequence in storage order (an array for the
    bulk update); the `User` collection is a parameter. */
module MessageController {
  import opened Base
  import Sorting

  /** The `Message` document (`createdAt`/`updatedAt` are not used here). */
  datatype Message = Message(senderId: UserId, receiverId: UserId, text: string, timestamp: int, isRead: bool)

  function Timestamp(m: Message): int { m.timestamp }

  // ---------------------------------------------------------------------
  // getConversation

  /** The `$or` filter: a message from either user to the other. */
  predicate InConversation(m: Message, u1: UserId, u2: UserId)
  {
    (m.senderId == u1 && m.receiverId == u2) || (m.senderId == u2 && m.receiverId == u1)
  }

  /** The conversation, newest first (`sort({ timestamp: -1 })`). */
  function ConversationNewestFirst(msgs: seq<Message>, u1: UserId, u2: UserId): seq<Message>
  {
    Sorting.SortDesc(Keep(msgs, m => InConversation(m, u1, u2)), Timestamp)
  }

  datatype ConversationPage = ConversationPage(messages: seq<Message>, currentPage: int, hasMore: bool)

  /** `getConversation(userId1, userId2)` with `page` and `limit` defaulting
      to 1 and 50: the newest-first conversation, `(page - 1) * limit`
      messages skipped and `limit` taken, then reversed to read oldest first. */
  function GetConversation(msgs: seq<Message>, users: set<UserId>, u1: UserId, u2: UserId,
                           page: Option<int>, limit: Option<int>): (r: Reply<ConversationPage>)
    ensures u1 !in users || u2 !in users ==> r == Error(404, "One or both users not found")
    ensures u1 in users && u2 in users ==>
      (r.Error? <==> (page.GetOr(1) - 1) * limit.GetOr(50) < 0)
    ensures u1 in users && u2 in users && r.Error? ==> r == Error(500, "Server error")
    ensures r.Ok? ==>
      && Some(Reverse(r.body.messages))
           == SkipLimit(ConversationNewestFirst(msgs, u1, u2), (page.GetOr(1) - 1) * limit.GetOr(50), limit.GetOr(50))
      && r.body.currentPage == page.GetOr(1)
      && (r.body.hasMore <==> |r.body.messages| == limit.GetOr(50))
  {
    if u1 !in users || u2 !in users then Error(404, "One or both users not found")
    else
      var p, n := page.GetOr(1), limit.GetOr(50);
      match SkipLimit(ConversationNewestFirst(msgs, u1, u2), (p - 1) * n, n)
      case None => Error(500, "Server error")
      case Some(newest) =>
        ReverseTwice(newest);
        Ok(ConversationPage(Reverse(newest), p, |newest| == n))
  }

  /** A page holds only messages between the two users, oldest first. */
  lemma ConversationPageOrdered(msgs: seq<Message>, users: set<UserId>, u1: UserId, u2: UserId,
                                page: Option<int>, limit: Option<int>)
    ensures var r := GetConversation(msgs, users, u1, u2, page, limit);
      r.Ok? ==>
        && (forall m :: m in r.body.messages ==> m in msgs && InConversation(m, u1, u2))
        && (forall i, j :: 0 <= i < j < |r.body.messages| ==>
              r.body.messages[i].timestamp <= r.body.messages[j].timestamp)
  {
    var r := GetConversation(msgs, users, u1, u2, page, limit);
    if r.Ok? {
      var p, n := page.GetOr(1), limit.GetOr(50);
      var sorted := ConversationNewestFirst(msgs, u1, u2);
      var newest := SkipLimit(sorted, (p - 1) * n, n).value;
      assert r.body.messages == Reverse(newest);
      ConversationMembers(msgs, u1, u2, newest);
      Sorting.SortDescSorted(Keep(msgs, m => InConversation(m, u1, u2)), Timestamp);
      Sorting.SkipLimitSorted(sorted, (p - 1) * n, n, Timestamp);
    }
  }

  lemma ReverseTwice<T>(s: seq<T>)
    ensures Reverse(Reverse(s)) == s
  {
    assert forall i :: 0 <= i < |s| ==> Reverse(Reverse(s))[i] == s[i];
  }

  /** Every message of a page is stored and belongs to the conversation. */
  lemma ConversationMembers(msgs: seq<Message>, u1: UserId, u2: UserId, newest: seq<Message>)
    requires forall m :: m in newest ==> m in ConversationNewestFirst(msgs, u1, u2)
    ensures forall m :: m in Reverse(newest) ==> m in msgs && InConversation(m, u1, u2)
  {
    var kept := Keep(msgs, m => InConversation(m, u1, u2));
    Sorting.SortDescPerm(kept, Timestamp);
    forall m | m in Reverse(newest) ensures m in msgs && InConversation(m, u1, u2) {
      var i :| 0 <= i < |Reverse(newest)| && Reverse(newest)[i] == m;
      assert m == newest[|newest| - 1 - i];
      assert m in newest;
      assert m in multiset(ConversationNewestFirst(msgs, u1, u2));
      assert m in multiset(kept);
    }
  }

  /** A full page: when `limit` more messages exist past the skipped ones,
      the page is exactly the next `limit` messages of the newest-first
      conversation, and `hasMore` is set. */
  lemma FullPage(msgs: seq<Message>, users: set<UserId>, u1: UserId, u2: UserId, p: int, n: int, skip: int)
    requires u1 in users && u2 in users && n >= 1
    requires skip == (p - 1) * n && skip >= 0
    requires skip + n <= |ConversationNewestFirst(msgs, u1, u2)|
    ensures var r := GetConversation(msgs, users, u1, u2, Some(p), Some(n));
      r.Ok? && r.body.hasMore && Reverse(r.body.messages) == ConversationNewestFirst(msgs, u1, u2)[skip..skip + n]
  {
    var sorted := ConversationNewestFirst(msgs, u1, u2);
    SkipLimitFullPage(sorted, skip, n);
    var r := GetConversation(msgs, users, u1, u2, Some(p), Some(n));
    assert Some(Reverse(r.body.messages)) == SkipLimit(sorted, skip, n);
  }

  // ---------------------------------------------------------------------
  // getUserConversations

  /** The `$match` stage: the user sent or received the message. */
  predicate Involves(m: Message, u: UserId)
  {
    m.senderId == u || m.receiverId == u
  }

  /** The `$group` key: the other participant. */
  function PartnerOf(m: Message, u: UserId): UserId
  {
    if m.senderId == u then m.receiverId else m.senderId
  }

  /** A message the `unreadCount` sum counts for the group of `p`. */
  predicate UnreadWith(m: Message, u: UserId, p: UserId)
  {
    PartnerOf(m, u) == p && m.receiverId == u && !m.isRead
  }

  function CountUnread(s: seq<Message>, u: UserId, p: UserId): nat
  {
    |Keep(s, m => UnreadWith(m, u, p))|
  }

  /** One `$group` output document, after the `$lookup`. */
  datatype ConversationEntry = ConversationEntry(otherUser: UserId, lastMessage: Message, unreadCount: nat)

  function LastTimestamp(e: ConversationEntry): int { e.lastMessage.timestamp }

  /** Feed one message of the sorted stream into the groups: a new partner
      opens a group whose `$first` message is this one; a known partner only
      adds to its `$sum`. */
  function AddToGroups(groups: seq<ConversationEntry>, m: Message, u: UserId): (r: seq<ConversationEntry>)
    ensures |r| == |groups| || |r| == |groups| + 1
  {
    var p := PartnerOf(m, u);
    var inc := if UnreadWith(m, u, p) then 1 else 0;
    if groups == [] then [ConversationEntry(p, m, inc)]
    else if groups[0].otherUser == p then [groups[0].(unreadCount := groups[0].unreadCount + inc)] + groups[1..]
    else [groups[0]] + AddToGroups(groups[1..], m, u)
  }

  /** `$group` over a stream, groups in order of first appearance. */
  function Group(s: seq<Message>, u: UserId): seq<ConversationEntry>
  {
    if s == [] then [] else AddToGroups(Group(s[..|s| - 1], u), s[|s| - 1], u)
  }

  /** `msg` is the first message of `s` whose partner is `p`. */
  predicate IsFirstFor(s: seq<Message>, u: UserId, p: UserId, msg: Message)
  {
    exists k | 0 <= k < |s| :: s[k] == msg && PartnerOf(msg, u) == p &&
      forall j :: 0 <= j < k ==> PartnerOf(s[j], u) != p
  }

  predicate HasGroup(groups: seq<ConversationEntry>, p: UserId)
  {
    exists i | 0 <= i < |groups| :: groups[i].otherUser == p
  }

  /** Adding a message changes only the group of its partner, opening it
      at the end when it is new. */
  lemma {:induction false} AddToGroupsEffect(groups: seq<ConversationEntry>, m: Message, u: UserId)
    requires DistinctGroups(groups)
    ensures var r := AddToGroups(groups, m, u);
      var p := PartnerOf(m, u);
      && (HasGroup(groups, p) ==> |r| == |groups|)
      && (!HasGroup(groups, p) ==>
            |r| == |groups| + 1 && r[|groups|] == ConversationEntry(p, m, if UnreadWith(m, u, p) then 1 else 0))
      && (forall i :: 0 <= i < |groups| ==>
            r[i].otherUser == groups[i].otherUser && r[i].lastMessage == groups[i].lastMessage &&
            r[i].unreadCount == groups[i].unreadCount + (if UnreadWith(m, u, groups[i].otherUser) then 1 else 0))
    decreases |groups|
  {
    var p := PartnerOf(m, u);
    if groups != [] && groups[0].otherUser != p {
      AddToGroupsEffect(groups[1..], m, u);
      var r := AddToGroups(groups, m, u);
      assert HasGroup(groups, p) ==> HasGroup(groups[1..], p) by {
        if HasGroup(groups, p) {
          var i :| 0 <= i < |groups| && groups[i].otherUser == p;
          assert groups[1..][i - 1].otherUser == p;
        }
      }
      assert HasGroup(groups[1..], p) ==> HasGroup(groups, p) by {
        if HasGroup(groups[1..], p) {
          var i :| 0 <= i < |groups[1..]| && groups[1..][i].otherUser == p;
          assert groups[i + 1].otherUser == p;
        }
      }
      forall i | 0 <= i < |groups| ensures
        r[i].otherUser == groups[i].otherUser && r[i].lastMessage == groups[i].lastMessage &&
        r[i].unreadCount == groups[i].unreadCount + (if UnreadWith(m, u, groups[i].otherUser) then 1 else 0)
      {
        if i > 0 {
          assert r[i] == AddToGroups(groups[1..], m, u)[i - 1];
        }
      }
    } else if groups != [] {
      assert HasGroup(groups, p) by { assert groups[0].otherUser == p; }
      forall i | 0 < i < |groups| ensures !UnreadWith(m, u, groups[i].otherUser) {
        assert groups[i].otherUser != groups[0].otherUser;
      }
    }
  }

  lemma CountUnreadSnoc(s: seq<Message>, m: Message, u: UserId, p: UserId)
    ensures CountUnread(s + [m], u, p) == CountUnread(s, u, p) + if UnreadWith(m, u, p) then 1 else 0
  {
    KeepAppend(s, [m], m => UnreadWith(m, u, p));
    assert Keep([m], m => UnreadWith(m, u, p)) == if UnreadWith(m, u, p) then [m] else [];
  }

  /** Partner `p` occurs in the stream `s`. */
  predicate Occurs(s: seq<Message>, u: UserId, p: UserId)
  {
    exists k | 0 <= k < |s| :: PartnerOf(s[k], u) == p
  }

  predicate DistinctGroups(g: seq<ConversationEntry>)
  {
    forall i, j :: 0 <= i < j < |g| ==> g[i].otherUser != g[j].otherUser
  }

  lemma OccursSnoc(s: seq<Message>, m: Message, u: UserId, p: UserId)
    ensures Occurs(s + [m], u, p) <==> Occurs(s, u, p) || PartnerOf(m, u) == p
  {
    var t := s + [m];
    if Occurs(t, u, p) {
      var k :| 0 <= k < |t| && PartnerOf(t[k], u) == p;
      if k < |s| {
        assert t[k] == s[k];
      }
    }
    if Occurs(s, u, p) {
      var k :| 0 <= k < |s| && PartnerOf(s[k], u) == p;
      assert t[k] == s[k];
    }
    if PartnerOf(m, u) == p {
      assert t[|s|] == m;
    }
  }

  /** The `$group` stage makes one group per partner occurring in the stream. */
  lemma {:induction false} GroupKeys(s: seq<Message>, u: UserId)
    ensures DistinctGroups(Group(s, u))
    ensures forall p :: HasGroup(Group(s, u), p) <==> Occurs(s, u, p)
    decreases |s|
  {
    if s != [] {
      var s', m := s[..|s| - 1], s[|s| - 1];
      assert s == s' + [m];
      GroupKeys(s', u);
      var g', g := Group(s', u), Group(s, u);
      AddToGroupsEffect(g', m, u);
      var p := PartnerOf(m, u);
      forall q ensures HasGroup(g, q) <==> Occurs(s, u, q) {
        OccursSnoc(s', m, u, q);
        if HasGroup(g, q) {
          var i :| 0 <= i < |g| && g[i].otherUser == q;
          if i < |g'| {
            assert g'[i].otherUser == q;
          }
        }
        if HasGroup(g', q) {
          var i :| 0 <= i < |g'| && g'[i].otherUser == q;
          assert g[i].otherUser == q;
        }
        if q == p && !HasGroup(g', p) {
          assert g[|g'|].otherUser == q;
        }
      }
      forall i, j | 0 <= i < j < |g| ensures g[i].otherUser != g[j].otherUser {
        if j >= |g'| {
          assert g[i].otherUser == g'[i].otherUser;
        }
      }
    }
  }

  /** Each group's `$first` message is the first message of its partner in
      the stream, and its `unreadCount` counts that partner's unread messages
      to the user. */
  lemma {:induction false} GroupEntries(s: seq<Message>, u: UserId)
    ensures forall i :: 0 <= i < |Group(s, u)| ==>
      IsFirstFor(s, u, Group(s, u)[i].otherUser, Group(s, u)[i].lastMessage)
    ensures forall i :: 0 <= i < |Group(s, u)| ==>
      Group(s, u)[i].unreadCount == CountUnread(s, u, Group(s, u)[i].otherUser)
    decreases |s|
  {
    if s != [] {
      var s', m := s[..|s| - 1], s[|s| - 1];
      assert s == s' + [m];
      GroupKeys(s', u);
      GroupEntries(s', u);
      forall i | 0 <= i < |Group(s, u)| ensures
        IsFirstFor(s, u, Group(s, u)[i].otherUser, Group(s, u)[i].lastMessage) &&
        Group(s, u)[i].unreadCount == CountUnread(s, u, Group(s, u)[i].otherUser)
      {
        GroupEntryStep(s', m, u, i);
      }
    }
  }

  /** One message appended to the stream: the entries of the new grouping
      keep their `$first` message and count the new message when it is unread. */
  lemma GroupEntryStep(s': seq<Message>, m: Message, u: UserId, i: int)
    requires DistinctGroups(Group(s', u))
    requires forall p :: HasGroup(Group(s', u), p) <==> Occurs(s', u, p)
    requires forall j :: 0 <= j < |Group(s', u)| ==>
      IsFirstFor(s', u, Group(s', u)[j].otherUser, Group(s', u)[j].lastMessage)
    requires forall j :: 0 <= j < |Group(s', u)| ==>
      Group(s', u)[j].unreadCount == CountUnread(s', u, Group(s', u)[j].otherUser)
    requires 0 <= i < |Group(s' + [m], u)|
    ensures IsFirstFor(s' + [m], u, Group(s' + [m], u)[i].otherUser, Group(s' + [m], u)[i].lastMessage)
    ensures Group(s' + [m], u)[i].unreadCount == CountUnread(s' + [m], u, Group(s' + [m], u)[i].otherUser)
  {
    var s := s' + [m];
    assert s[..|s| - 1] == s';
    var g', g := Group(s', u), Group(s, u);
    assert g == AddToGroups(g', m, u);
    AddToGroupsEffect(g', m, u);
    var q := g[i].otherUser;
    CountUnreadSnoc(s', m, u, q);
    if i < |g'| {
      assert IsFirstFor(s', u, q, g'[i].lastMessage);
      var k :| 0 <= k < |s'| && s'[k] == g'[i].lastMessage && PartnerOf(g'[i].lastMessage, u) == q &&
        forall j :: 0 <= j < k ==> PartnerOf(s'[j], u) != q;
      assert s[k] == s'[k];
      assert forall j :: 0 <= j < k ==> s[j] == s'[j];
    } else {
      assert !Occurs(s', u, q);
      KeepNone(s', m => UnreadWith(m, u, q));
      assert s[|s'|] == m;
      assert forall j :: 0 <= j < |s'| ==> s[j] == s'[j];
    }
  }

  /** The `$lookup` found the partner's user record. */
  predicate PartnerKnown(e: ConversationEntry, users: set<UserId>)
  {
    e.otherUser in users
  }

  /** The user's messages, newest first: the stream the `$group` reads. */
  function UserStream(msgs: seq<Message>, u: UserId): seq<Message>
  {
    Sorting.SortDesc(Keep(msgs, m => Involves(m, u)), Timestamp)
  }

  /** The groups `$unwind` keeps: those whose partner has a user record. */
  function KnownGroups(msgs: seq<Message>, users: set<UserId>, u: UserId): seq<ConversationEntry>
  {
    Keep(Group(UserStream(msgs, u), u), e => PartnerKnown(e, users))
  }

  /** `getUserConversations(userId)`: 404 for an unknown user; otherwise the
      groups whose partner has a user record, sorted by `lastMessage.timestamp`,
      newest conversation first. */
  function GetUserConversations(msgs: seq<Message>, users: set<UserId>, u: UserId)
    : (r: Reply<seq<ConversationEntry>>)
    ensures u !in users <==> r == Error(404, "User not found")
    ensures r.Ok? ==> Sorting.SortedDesc(r.body, LastTimestamp)
    ensures r.Ok? ==> multiset(r.body) == multiset(KnownGroups(msgs, users, u))
  {
    if u !in users then Error(404, "User not found")
    else
      var kept := KnownGroups(msgs, users, u);
      Sorting.SortDescSorted(kept, LastTimestamp);
      Sorting.SortDescPerm(kept, LastTimestamp);
      Ok(Sorting.SortDesc(kept, LastTimestamp))
  }

  /** The entries are groups of the user's stream, one per partner, and
      every partner has a user record. */
  lemma ConversationsAreKnownGroups(msgs: seq<Message>, users: set<UserId>, u: UserId)
    requires u in users
    ensures var es := GetUserConversations(msgs, users, u).body;
      && DistinctGroups(es)
      && (forall e :: e in es ==> e in Group(UserStream(msgs, u), u) && e.otherUser in users)
  {
    var g := Group(UserStream(msgs, u), u);
    var kept := KnownGroups(msgs, users, u);
    var es := GetUserConversations(msgs, users, u).body;
    GroupKeys(UserStream(msgs, u), u);
    KeepIsSubsequence(g, e => PartnerKnown(e, users));
    DistinctSubsequence(kept, g);
    DistinctPermutation(kept, es);
    forall e | e in es ensures e in g && e.otherUser in users {
      assert e in multiset(kept);
      KeepMembership(g, e => PartnerKnown(e, users), e);
    }
  }

  /** Each entry's `lastMessage` is the newest message between the user and
      that partner, and its `unreadCount` the number of the pair's messages
      to the user that are unread. */
  lemma ConversationsLastAndUnread(msgs: seq<Message>, users: set<UserId>, u: UserId)
    requires u in users
    ensures forall e :: e in GetUserConversations(msgs, users, u).body ==>
      && e.lastMessage in msgs && Involves(e.lastMessage, u) && PartnerOf(e.lastMessage, u) == e.otherUser
      && (forall m :: m in msgs && Involves(m, u) && PartnerOf(m, u) == e.otherUser ==>
            m.timestamp <= e.lastMessage.timestamp)
      && e.unreadCount == CountUnread(Keep(msgs, m => Involves(m, u)), u, e.otherUser)
  {
    ConversationsAreKnownGroups(msgs, users, u);
    forall e | e in GetUserConversations(msgs, users, u).body ensures
      && e.lastMessage in msgs && Involves(e.lastMessage, u) && PartnerOf(e.lastMessage, u) == e.otherUser
      && (forall m :: m in msgs && Involves(m, u) && PartnerOf(m, u) == e.otherUser ==>
            m.timestamp <= e.lastMessage.timestamp)
      && e.unreadCount == CountUnread(Keep(msgs, m => Involves(m, u)), u, e.otherUser)
    {
      GroupLastAndUnread(msgs, u, e);
    }
  }

  /** The same, for one group of the user's stream. */
  lemma GroupLastAndUnread(msgs: seq<Message>, u: UserId, e: ConversationEntry)
    requires e in Group(UserStream(msgs, u), u)
    ensures e.lastMessage in msgs && Involves(e.lastMessage, u) && PartnerOf(e.lastMessage, u) == e.otherUser
    ensures forall m :: m in msgs && Involves(m, u) && PartnerOf(m, u) == e.otherUser ==>
      m.timestamp <= e.lastMessage.timestamp
    ensures e.unreadCount == CountUnread(Keep(msgs, m => Involves(m, u)), u, e.otherUser)
  {
    var involved := Keep(msgs, m => Involves(m, u));
    var stream := UserStream(msgs, u);
    var g := Group(stream, u);
    GroupEntries(stream, u);
    Sorting.SortDescPerm(involved, Timestamp);
    Sorting.SortDescSorted(involved, Timestamp);
    var i :| 0 <= i < |g| && g[i] == e;
    assert IsFirstFor(stream, u, e.otherUser, e.lastMessage);
    var k :| 0 <= k < |stream| && stream[k] == e.lastMessage && PartnerOf(e.lastMessage, u) == e.otherUser &&
      forall j :: 0 <= j < k ==> PartnerOf(stream[j], u) != e.otherUser;
    FirstIsNewest(stream, u, e.otherUser, k);
    assert e.lastMessage in multiset(involved);
    KeepMembership(msgs, m => Involves(m, u), e.lastMessage);
    forall m | m in msgs && Involves(m, u) && PartnerOf(m, u) == e.otherUser
      ensures m.timestamp <= e.lastMessage.timestamp
    {
      KeepMembership(msgs, m => Involves(m, u), m);
      assert m in multiset(stream);
    }
    CountUnreadPermutation(involved, stream, u, e.otherUser);
  }

  /** In a stream sorted newest first, the first message with a partner is
      the newest one with that partner. */
  lemma FirstIsNewest(stream: seq<Message>, u: UserId, p: UserId, k: int)
    requires Sorting.SortedDesc(stream, Timestamp)
    requires 0 <= k < |stream| && forall j :: 0 <= j < k ==> PartnerOf(stream[j], u) != p
    ensures forall m :: m in stream && PartnerOf(m, u) == p ==> m.timestamp <= stream[k].timestamp
  {
    forall m | m in stream && PartnerOf(m, u) == p ensures m.timestamp <= stream[k].timestamp {
      var j :| 0 <= j < |stream| && stream[j] == m;
      if j > k {
        assert Timestamp(stream[k]) >= Timestamp(stream[j]);
      }
    }
  }

  /** Every partner the user exchanged a message with and who has a user
      record has an entry. */
  lemma ConversationsComplete(msgs: seq<Message>, users: set<UserId>, u: UserId, m: Message)
    requires u in users
    requires m in msgs && Involves(m, u) && PartnerOf(m, u) in users
    ensures exists e :: e in GetUserConversations(msgs, users, u).body && e.otherUser == PartnerOf(m, u)
  {
    var involved := Keep(msgs, m => Involves(m, u));
    var stream := UserStream(msgs, u);
    var g := Group(stream, u);
    GroupKeys(stream, u);
    Sorting.SortDescPerm(involved, Timestamp);
    KeepMembership(msgs, m => Involves(m, u), m);
    assert m in multiset(stream);
    var k :| 0 <= k < |stream| && stream[k] == m;
    assert Occurs(stream, u, PartnerOf(m, u));
    var i :| 0 <= i < |g| && g[i].otherUser == PartnerOf(m, u);
    KeepMembership(g, e => PartnerKnown(e, users), g[i]);
    assert g[i] in multiset(GetUserConversations(msgs, users, u).body);
  }

  /** A subsequence of a sequence with distinct partners has distinct partners. */
  lemma {:induction false} DistinctSubsequence(r: seq<ConversationEntry>, s: seq<ConversationEntry>)
    requires IsSubsequence(r, s)
    requires DistinctGroups(s)
    ensures DistinctGroups(r)
    ensures forall x :: x in r ==> x in s
    decreases |s|
  {
    if r != [] && s != [] {
      if r[0] == s[0] && IsSubsequence(r[1..], s[1..]) {
        DistinctSubsequence(r[1..], s[1..]);
        forall x | x in r ensures x in s {
          if x != r[0] {
            var i :| 0 < i < |r| && r[i] == x;
            assert r[1..][i - 1] == x;
            assert x in s[1..];
            var k :| 0 <= k < |s[1..]| && s[1..][k] == x;
            assert s[k + 1] == x;
          }
        }
        forall j | 0 < j < |r| ensures r[0].otherUser != r[j].otherUser {
          assert r[j] == r[1..][j - 1];
          assert r[j] in s[1..];
          var k :| 0 <= k < |s[1..]| && s[1..][k] == r[j];
          assert s[k + 1] == r[j];
        }
        forall i, j | 0 < i < j < |r| ensures r[i].otherUser != r[j].otherUser {
          assert r[i] == r[1..][i - 1] && r[j] == r[1..][j - 1];
        }
      } else {
        DistinctSubsequence(r, s[1..]);
        forall x | x in r ensures x in s {
          var k :| 0 <= k < |s[1..]| && s[1..][k] == x;
          assert s[k + 1] == x;
        }
      }
    }
  }

  /** A permutation of a sequence with distinct partners has distinct partners. */
  lemma DistinctPermutation(a: seq<ConversationEntry>, b: seq<ConversationEntry>)
    requires multiset(a) == multiset(b)
    requires DistinctGroups(a)
    ensures DistinctGroups(b)
  {
    forall i, j | 0 <= i < j < |b| ensures b[i].otherUser != b[j].otherUser {
      if b[i].otherUser == b[j].otherUser {
        assert b[i] in multiset(a) && b[j] in multiset(a);
        var i' :| 0 <= i' < |a| && a[i'] == b[i];
        var j' :| 0 <= j' < |a| && a[j'] == b[j];
        assert i' == j';
        assert multiset(b)[b[i]] >= 2 by {
          assert b == b[..i] + [b[i]] + b[i + 1..j] + [b[j]] + b[j + 1..];
        }
        AtMostOnce(a, i');
      }
    }
  }

  /** In a sequence with distinct partners, an element occurs at most once. */
  lemma AtMostOnce(a: seq<ConversationEntry>, i: nat)
    requires i < |a|
    requires DistinctGroups(a)
    ensures multiset(a)[a[i]] == 1
  {
    var x := a[i];
    assert a == a[..i] + [x] + a[i + 1..];
    assert x !in a[..i] && x !in a[i + 1..];
  }

  /** The unread count does not depend on the order of the messages. */
  lemma CountUnreadPermutation(a: seq<Message>, b: seq<Message>, u: UserId, p: UserId)
    requires multiset(a) == multiset(b)
    ensures CountUnread(a, u, p) == CountUnread(b, u, p)
  {
    var f := m => UnreadWith(m, u, p);
    forall x ensures multiset(Keep(a, f))[x] == multiset(Keep(b, f))[x] {
      KeepMultiplicity(a, f, x);
      KeepMultiplicity(b, f, x);
    }
    assert multiset(Keep(a, f)) == multiset(Keep(b, f));
    assert |multiset(Keep(a, f))| == |Keep(a, f)|;
    assert |multiset(Keep(b, f))| == |Keep(b, f)|;
  }

  // ---------------------------------------------------------------------
  // markMessagesAsRead

  /** The `updateMany` filter: unread, from `sender` to `receiver`. */
  predicate UnreadFromTo(m: Message, sender: UserId, receiver: UserId)
  {
    m.senderId == sender && m.receiverId == receiver && !m.isRead
  }

  /** The collection after `updateMany(filter, { isRead: true })`. */
  function MarkRead(s: seq<Message>, sender: UserId, receiver: UserId): (r: seq<Message>)
    ensures |r| == |s|
    ensures forall i :: 0 <= i < |s| ==> (r[i] != s[i] <==> UnreadFromTo(s[i], sender, receiver))
    ensures forall i :: 0 <= i < |s| ==> r[i] == s[i] || r[i] == s[i].(isRead := true)
  {
    seq(|s|, i requires 0 <= i < |s| => if UnreadFromTo(s[i], sender, receiver) then s[i].(isRead := true) else s[i])
  }

  /** The number of documents the update matches, and so modifies. */
  function CountUnreadFromTo(s: seq<Message>, sender: UserId, receiver: UserId): (n: nat)
    ensures n <= |s|
  {
    if s == [] then 0
    else CountUnreadFromTo(s[..|s| - 1], sender, receiver)
         + if UnreadFromTo(s[|s| - 1], sender, receiver) then 1 else 0
  }

  /** The count is zero exactly when no message matches. */
  lemma {:induction false} CountZeroIffNoneMatch(s: seq<Message>, sender: UserId, receiver: UserId)
    ensures CountUnreadFromTo(s, sender, receiver) == 0 <==>
      forall i :: 0 <= i < |s| ==> !UnreadFromTo(s[i], sender, receiver)
  {
    if s != [] {
      CountZeroIffNoneMatch(s[..|s| - 1], sender, receiver);
      assert forall i :: 0 <= i < |s| - 1 ==> s[..|s| - 1][i] == s[i];
    }
  }

  /** Marking twice modifies nothing the second time and leaves the
      collection as the first call left it. */
  lemma MarkReadIdempotent(s: seq<Message>, sender: UserId, receiver: UserId)
    ensures CountUnreadFromTo(MarkRead(s, sender, receiver), sender, receiver) == 0
    ensures MarkRead(MarkRead(s, sender, receiver), sender, receiver) == MarkRead(s, sender, receiver)
  {
    var r := MarkRead(s, sender, receiver);
    assert forall i :: 0 <= i < |r| ==> !UnreadFromTo(r[i], sender, receiver);
    CountZeroIffNoneMatch(r, sender, receiver);
  }

  /** Messages of other conversations, and messages in the other direction,
      are untouched. */
  lemma MarkReadOnlyThatDirection(s: seq<Message>, sender: UserId, receiver: UserId, i: nat)
    requires i < |s|
    requires s[i].senderId != sender || s[i].receiverId != receiver
    ensures MarkRead(s, sender, receiver)[i] == s[i]
  {
  }

  /** `markMessagesAsRead(senderId)` by the signed-in `receiver`, over the
      stored messages in place; returns `modifiedCount`. */
  method MarkMessagesAsRead(a: array<Message>, sender: UserId, receiver: UserId) returns (modifiedCount: nat)
    modifies a
    ensures a[..] == MarkRead(old(a[..]), sender, receiver)
    ensures modifiedCount == CountUnreadFromTo(old(a[..]), sender, receiver)
  {
    ghost var orig := a[..];
    modifiedCount := 0;
    var i := 0;
    while i < a.Length
      invariant 0 <= i <= a.Length
      invariant forall k :: 0 <= k < i ==> a[k] == MarkRead(orig, sender, receiver)[k]
      invariant forall k :: i <= k < a.Length ==> a[k] == orig[k]
      invariant modifiedCount == CountUnreadFromTo(orig[..i], sender, receiver)
    {
      assert orig[..i + 1][..i] == orig[..i];
      if UnreadFromTo(a[i], sender, receiver) {
        a[i] := a[i].(isRead := true);
        modifiedCount := modifiedCount + 1;
      }
      i := i + 1;
    }
    assert orig[..a.Length] == orig;
  }
}
