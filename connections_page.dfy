/** The connections page: the accepted requests the user sent and received
    are merged into one list of connected users, one entry per user id
    (an entry from a sent request wins), sorted newest connection first,
    and then narrowed by the search box. */
module ConnectionsPage {
  import opened Base
  import Sorting

  // ---------------------------------------------------------------------
  // data

  /** A populated user of a request; `id` is `None` when `_id` is missing. */
  datatype PeerUser = PeerUser(
    id: Option<UserId>, name: string, email: string,
    skills: Option<seq<string>>, goals: Option<seq<string>>)

  /** A connection request as the sent/received endpoints return it, with
      its times in milliseconds; `updatedAt` is `None` when missing. */
  datatype Request = Request(
    status: string, fromUser: Option<PeerUser>, toUser: Option<PeerUser>,
    updatedAt: Option<int>, createdAt: int)

  /** Which list a connection came from: `connectionType`. */
  datatype Side = Sent | Received

  /** One entry of the page: the other user's fields, plus the date and the side. */
  datatype Connection = Connection(user: PeerUser, userId: UserId, connectionDate: int, connectionType: Side)

  function ConnectionDate(c: Connection): int { c.connectionDate }

  /** The other user of a request: the recipient of a sent one, the sender of a received one. */
  function Peer(r: Request, side: Side): Option<PeerUser>
  {
    if side == Sent then r.toUser else r.fromUser
  }

  /** `req.toUser && req.toUser._id` (or the same on `fromUser`). */
  predicate Usable(r: Request, side: Side)
  {
    Peer(r, side).Some? && Peer(r, side).value.id.Some?
  }

  function PeerId(r: Request, side: Side): UserId
    requires Usable(r, side)
  {
    Peer(r, side).value.id.value
  }

  /** `req.updatedAt || req.createdAt`. */
  function RequestDate(r: Request): int
  {
    if r.updatedAt.Some? then r.updatedAt.value else r.createdAt
  }

  /** The entry a usable request contributes. */
  function ToConnection(r: Request, side: Side): (c: Connection)
    requires Usable(r, side)
    ensures c.user == Peer(r, side).value
    ensures c.userId == PeerId(r, side) && c.connectionType == side
    ensures c.connectionDate == (if r.updatedAt.Some? then r.updatedAt.value else r.createdAt)
  {
    Connection(Peer(r, side).value, PeerId(r, side), RequestDate(r), side)
  }

  predicate IsAccepted(r: Request) { r.status == "accepted" }

  /** `data.requests?.filter(req => req.status === 'accepted') || []`;
      `None` stands for a missing `requests` field and for a reply that is
      not ok, which the page replaces by an empty list. */
  function Accepted(requests: Option<seq<Request>>): (r: seq<Request>)
    ensures requests.None? ==> r == []
    ensures forall x :: x in r <==> requests.Some? && x in requests.value && IsAccepted(x)
    ensures requests.Some? ==> IsSubsequence(r, requests.value)
    ensures requests.Some? ==> forall x :: multiset(r)[x] == if IsAccepted(x) then multiset(requests.value)[x] else 0
  {
    match requests
    case None => []
    case Some(rs) =>
      forall x ensures x in Keep(rs, IsAccepted) <==> x in rs && IsAccepted(x) {
        KeepMembership(rs, IsAccepted, x);
      }
      forall x ensures multiset(Keep(rs, IsAccepted))[x] == if IsAccepted(x) then multiset(rs)[x] else 0 {
        KeepMultiplicity(rs, IsAccepted, x);
      }
      KeepIsSubsequence(rs, IsAccepted);
      Keep(rs, IsAccepted)
  }

  // ---------------------------------------------------------------------
  // the merge, as a reference definition

  function Ids(cs: seq<Connection>): set<UserId>
  {
    set c | c in cs :: c.userId
  }

  predicate DistinctIds(cs: seq<Connection>)
  {
    forall i, j :: 0 <= i < j < |cs| ==> cs[i].userId != cs[j].userId
  }

  /** One `forEach` over `reqs`: a usable request whose user id has not been
      seen is appended, and its id marked as seen. */
  function Collect(reqs: seq<Request>, side: Side, seen: set<UserId>, acc: seq<Connection>)
    : (seq<Connection>, set<UserId>)
    decreases |reqs|
  {
    if reqs == [] then (acc, seen)
    else
      var r := reqs[0];
      if Usable(r, side) && PeerId(r, side) !in seen then
        Collect(reqs[1..], side, seen + {PeerId(r, side)}, acc + [ToConnection(r, side)])
      else Collect(reqs[1..], side, seen, acc)
  }

  /** `allConnections` before the sort: sent first, then received. */
  function Merged(sent: Option<seq<Request>>, received: Option<seq<Request>>): seq<Connection>
  {
    MergeOf(Accepted(sent), Accepted(received))
  }

  /** The two `forEach` loops over already filtered request lists. */
  function MergeOf(s: seq<Request>, rv: seq<Request>): seq<Connection>
  {
    var (afterSent, seenSent) := Collect(s, Sent, {}, []);
    Collect(rv, Received, seenSent, afterSent).0
  }

  /** `reqs[k]` is a usable request that contributes exactly `c`. */
  predicate ComesFrom(c: Connection, reqs: seq<Request>, side: Side)
  {
    exists k | 0 <= k < |reqs| :: Usable(reqs[k], side) && c == ToConnection(reqs[k], side)
  }

  lemma IdsSnoc(cs: seq<Connection>, c: Connection)
    ensures Ids(cs + [c]) == Ids(cs) + {c.userId}
  {
    assert forall x :: x in cs + [c] <==> x in cs || x == c;
  }

  /** The seen set is always the set of ids collected so far, and those ids are distinct. */
  lemma {:induction false} CollectKeepsDistinct(reqs: seq<Request>, side: Side, seen: set<UserId>, acc: seq<Connection>)
    requires seen == Ids(acc) && DistinctIds(acc)
    ensures Collect(reqs, side, seen, acc).1 == Ids(Collect(reqs, side, seen, acc).0)
    ensures DistinctIds(Collect(reqs, side, seen, acc).0)
    decreases |reqs|
  {
    if reqs != [] {
      var r := reqs[0];
      if Usable(r, side) && PeerId(r, side) !in seen {
        var c := ToConnection(r, side);
        IdsSnoc(acc, c);
        var acc' := acc + [c];
        forall i, j | 0 <= i < j < |acc'| ensures acc'[i].userId != acc'[j].userId {
          if j == |acc| {
            assert acc'[i] in acc;
          }
        }
        CollectKeepsDistinct(reqs[1..], side, seen + {PeerId(r, side)}, acc');
      } else {
        CollectKeepsDistinct(reqs[1..], side, seen, acc);
      }
    }
  }

  /** `Collect` only appends, and every appended entry is the entry of one of
      the requests, with an id that was not already seen. */
  lemma {:induction false} CollectAppends(reqs: seq<Request>, side: Side, seen: set<UserId>, acc: seq<Connection>)
    ensures var res := Collect(reqs, side, seen, acc).0;
      && |acc| <= |res| && res[..|acc|] == acc
      && (forall i :: |acc| <= i < |res| ==> res[i].userId !in seen)
      && (forall i :: |acc| <= i < |res| ==> ComesFrom(res[i], reqs, side))
    decreases |reqs|
  {
    if reqs != [] {
      var r := reqs[0];
      var res := Collect(reqs, side, seen, acc).0;
      if Usable(r, side) && PeerId(r, side) !in seen {
        var c := ToConnection(r, side);
        CollectAppends(reqs[1..], side, seen + {PeerId(r, side)}, acc + [c]);
        assert res[..|acc| + 1] == acc + [c];
        assert res[..|acc|] == (acc + [c])[..|acc|];
        forall i | |acc| <= i < |res| ensures ComesFrom(res[i], reqs, side) {
          if i == |acc| {
            assert res[i] == (acc + [c])[i];
            assert Usable(reqs[0], side) && res[i] == ToConnection(reqs[0], side);
          } else {
            assert ComesFrom(res[i], reqs[1..], side);
            var k :| 0 <= k < |reqs[1..]| && Usable(reqs[1..][k], side) && res[i] == ToConnection(reqs[1..][k], side);
            assert reqs[1..][k] == reqs[k + 1];
          }
        }
        forall i | |acc| <= i < |res| ensures res[i].userId !in seen {
          if i == |acc| {
            assert res[i] == (acc + [c])[i];
          }
        }
      } else {
        CollectAppends(reqs[1..], side, seen, acc);
        forall i | |acc| <= i < |res| ensures ComesFrom(res[i], reqs, side) {
          var k :| 0 <= k < |reqs[1..]| && Usable(reqs[1..][k], side) && res[i] == ToConnection(reqs[1..][k], side);
          assert reqs[1..][k] == reqs[k + 1];
        }
      }
    }
  }

  /** Every usable request's user id ends up seen. */
  lemma {:induction false} CollectCovers(reqs: seq<Request>, side: Side, seen: set<UserId>, acc: seq<Connection>)
    ensures seen <= Collect(reqs, side, seen, acc).1
    ensures forall k :: 0 <= k < |reqs| && Usable(reqs[k], side) ==> PeerId(reqs[k], side) in Collect(reqs, side, seen, acc).1
    decreases |reqs|
  {
    if reqs != [] {
      var r := reqs[0];
      var seen' := if Usable(r, side) && PeerId(r, side) !in seen then seen + {PeerId(r, side)} else seen;
      var acc' := if Usable(r, side) && PeerId(r, side) !in seen then acc + [ToConnection(r, side)] else acc;
      CollectCovers(reqs[1..], side, seen', acc');
      forall k | 0 < k < |reqs| && Usable(reqs[k], side) ensures PeerId(reqs[k], side) in Collect(reqs, side, seen, acc).1 {
        assert reqs[1..][k - 1] == reqs[k];
      }
    }
  }

  /** What the merge promises:
      - each user id appears at most once;
      - every entry is the entry of an accepted, usable request, a sent entry
        from a sent request and a received entry from a received one;
      - every accepted usable request has an entry for its user, and when
        the user appears among the accepted sent requests, that entry is a
        sent one. */
  lemma MergedProperties(sent: Option<seq<Request>>, received: Option<seq<Request>>)
    ensures DistinctIds(Merged(sent, received))
    ensures forall c :: c in Merged(sent, received) ==>
      (c.connectionType == Sent && ComesFrom(c, Accepted(sent), Sent)) ||
      (c.connectionType == Received && ComesFrom(c, Accepted(received), Received))
    ensures forall k :: 0 <= k < |Accepted(sent)| && Usable(Accepted(sent)[k], Sent) ==>
      exists c :: c in Merged(sent, received) && c.userId == PeerId(Accepted(sent)[k], Sent) && c.connectionType == Sent
    ensures forall k :: 0 <= k < |Accepted(received)| && Usable(Accepted(received)[k], Received) ==>
      exists c :: c in Merged(sent, received) && c.userId == PeerId(Accepted(received)[k], Received)
  {
    MergeOfProperties(Accepted(sent), Accepted(received));
  }

  lemma MergeOfProperties(s: seq<Request>, rv: seq<Request>)
    ensures DistinctIds(MergeOf(s, rv))
    ensures forall c :: c in MergeOf(s, rv) ==>
      (c.connectionType == Sent && ComesFrom(c, s, Sent)) ||
      (c.connectionType == Received && ComesFrom(c, rv, Received))
    ensures forall k :: 0 <= k < |s| && Usable(s[k], Sent) ==>
      exists c :: c in MergeOf(s, rv) && c.userId == PeerId(s[k], Sent) && c.connectionType == Sent
    ensures forall k :: 0 <= k < |rv| && Usable(rv[k], Received) ==>
      exists c :: c in MergeOf(s, rv) && c.userId == PeerId(rv[k], Received)
  {
    var (a1, s1) := Collect(s, Sent, {}, []);
    var res := MergeOf(s, rv);
    CollectKeepsDistinct(s, Sent, {}, []);
    CollectAppends(s, Sent, {}, []);
    CollectCovers(s, Sent, {}, []);
    CollectKeepsDistinct(rv, Received, s1, a1);
    CollectAppends(rv, Received, s1, a1);
    CollectCovers(rv, Received, s1, a1);
    forall c | c in res ensures
      (c.connectionType == Sent && ComesFrom(c, s, Sent)) ||
      (c.connectionType == Received && ComesFrom(c, rv, Received))
    {
      var i :| 0 <= i < |res| && res[i] == c;
      if i < |a1| {
        assert res[i] == a1[i];
        var k :| 0 <= k < |s| && Usable(s[k], Sent) && c == ToConnection(s[k], Sent);
      } else {
        var k :| 0 <= k < |rv| && Usable(rv[k], Received) && c == ToConnection(rv[k], Received);
      }
    }
    forall k | 0 <= k < |s| && Usable(s[k], Sent)
      ensures exists c :: c in res && c.userId == PeerId(s[k], Sent) && c.connectionType == Sent
    {
      var x := PeerId(s[k], Sent);
      assert x in Ids(a1);
      var c :| c in a1 && c.userId == x;
      var i :| 0 <= i < |a1| && a1[i] == c;
      assert res[i] == c;
      var k' :| 0 <= k' < |s| && Usable(s[k'], Sent) && c == ToConnection(s[k'], Sent);
    }
    forall k | 0 <= k < |rv| && Usable(rv[k], Received)
      ensures exists c :: c in res && c.userId == PeerId(rv[k], Received)
    {
      var x := PeerId(rv[k], Received);
      var c :| c in res && c.userId == x;
    }
  }

  // ---------------------------------------------------------------------
  // fetchConnections: the imperative merge and the in-place sort

  /** One `forEach` over accepted requests of one side, pushing into
      `allConnections` and adding to `seenUsers`. */
  method CollectLoop(reqs: seq<Request>, side: Side, seen: set<UserId>, acc: seq<Connection>)
    returns (all: seq<Connection>, seenUsers: set<UserId>)
    ensures (all, seenUsers) == Collect(reqs, side, seen, acc)
  {
    all, seenUsers := acc, seen;
    var i := 0;
    while i < |reqs|
      invariant 0 <= i <= |reqs|
      invariant Collect(reqs, side, seen, acc) == Collect(reqs[i..], side, seenUsers, all)
    {
      var r := reqs[i];
      assert reqs[i..][1..] == reqs[i + 1..];
      if Usable(r, side) && PeerId(r, side) !in seenUsers {
        all := all + [ToConnection(r, side)];
        seenUsers := seenUsers + {PeerId(r, side)};
      }
      i := i + 1;
    }
  }

  /** The two loops, the sent requests first, then the in-place
      `allConnections.sort(...)` by connection date, newest first. */
  method FetchConnections(sent: Option<seq<Request>>, received: Option<seq<Request>>)
    returns (connections: array<Connection>)
    ensures fresh(connections)
    ensures connections[..] == Sorting.SortDesc(Merged(sent, received), ConnectionDate)
    ensures Sorting.SortedDesc(connections[..], ConnectionDate)
    ensures multiset(connections[..]) == multiset(Merged(sent, received))
  {
    var afterSent, seenSent := CollectLoop(Accepted(sent), Sent, {}, []);
    var all, _ := CollectLoop(Accepted(received), Received, seenSent, afterSent);
    connections := new Connection[|all|](k requires 0 <= k < |all| => all[k]);
    assert connections[..] == all;
    Sorting.SortDescInPlace(connections, ConnectionDate);
    Sorting.SortDescSorted(all, ConnectionDate);
    Sorting.SortDescPerm(all, ConnectionDate);
  }

  // ---------------------------------------------------------------------
  // the search filter

  /** Some element of an optional list (`list?.some(...)`) contains the term after lower-casing. */
  predicate SomeContains(list: Option<seq<string>>, term: string)
  {
    list.Some? && exists i | 0 <= i < |list.value| :: Contains(LowerAscii(list.value[i]), term)
  }

  /** The search box's test, with `term` already lower-cased. */
  predicate MatchesSearch(c: Connection, term: string)
  {
    || Contains(LowerAscii(c.user.name), term)
    || Contains(LowerAscii(c.user.email), term)
    || SomeContains(c.user.skills, term)
    || SomeContains(c.user.goals, term)
  }

  /** `filteredConnections`: the entries matching the lower-cased search
      term, in their order. */
  function FilterConnections(cs: seq<Connection>, searchTerm: string): (r: seq<Connection>)
    ensures IsSubsequence(r, cs)
    ensures forall c :: c in r <==> c in cs && MatchesSearch(c, LowerAscii(searchTerm))
    ensures forall c :: multiset(r)[c] == if MatchesSearch(c, LowerAscii(searchTerm)) then multiset(cs)[c] else 0
    ensures searchTerm == "" ==> r == cs
  {
    var term := LowerAscii(searchTerm);
    KeepIsSubsequence(cs, c => MatchesSearch(c, term));
    forall c ensures c in Keep(cs, c => MatchesSearch(c, term)) <==> c in cs && MatchesSearch(c, term) {
      KeepMembership(cs, c => MatchesSearch(c, term), c);
    }
    forall c ensures multiset(Keep(cs, c => MatchesSearch(c, term)))[c] == if MatchesSearch(c, term) then multiset(cs)[c] else 0 {
      KeepMultiplicity(cs, c => MatchesSearch(c, term), c);
    }
    EmptySearchKeepsAll(cs, searchTerm);
    Keep(cs, c => MatchesSearch(c, term))
  }

  lemma EmptySearchKeepsAll(cs: seq<Connection>, searchTerm: string)
    ensures searchTerm == "" ==> Keep(cs, c => MatchesSearch(c, LowerAscii(searchTerm))) == cs
  {
    if searchTerm == "" {
      forall c | c in cs ensures MatchesSearch(c, LowerAscii(searchTerm)) {
        ContainsEmpty(LowerAscii(c.user.name));
      }
      KeepAll(cs, c => MatchesSearch(c, LowerAscii(searchTerm)));
    }
  }

  /** Filtering the sorted page keeps it sorted and free of repeated ids. */
  lemma FilterKeepsOrderAndIds(cs: seq<Connection>, searchTerm: string)
    requires Sorting.SortedDesc(cs, ConnectionDate) && DistinctIds(cs)
    ensures Sorting.SortedDesc(FilterConnections(cs, searchTerm), ConnectionDate)
    ensures DistinctIds(FilterConnections(cs, searchTerm))
  {
    SubsequenceKeeps(FilterConnections(cs, searchTerm), cs);
  }

  lemma {:induction false} SubsequenceKeeps(r: seq<Connection>, s: seq<Connection>)
    requires IsSubsequence(r, s)
    requires Sorting.SortedDesc(s, ConnectionDate) && DistinctIds(s)
    ensures Sorting.SortedDesc(r, ConnectionDate) && DistinctIds(r)
    ensures forall x :: x in r ==> x in s
    decreases |s|
  {
    if r != [] && s != [] {
      assert Sorting.SortedDesc(s[1..], ConnectionDate) && DistinctIds(s[1..]) by {
        forall i, j | 0 <= i < j < |s[1..]| ensures s[1..][i] == s[i + 1] && s[1..][j] == s[j + 1] { }
      }
      if r[0] == s[0] && IsSubsequence(r[1..], s[1..]) {
        SubsequenceKeeps(r[1..], s[1..]);
        forall x | x in r ensures x in s {
          if x != r[0] {
            var i :| 0 < i < |r| && r[i] == x;
            assert r[1..][i - 1] == x;
            assert x in r[1..];
            var k :| 0 <= k < |s[1..]| && s[1..][k] == x;
            assert s[k + 1] == x;
          }
        }
        forall j | 0 < j < |r| ensures r[0].connectionDate >= r[j].connectionDate && r[0].userId != r[j].userId {
          assert r[j] == r[1..][j - 1];
          assert r[j] in r[1..];
          var k :| 0 <= k < |s[1..]| && s[1..][k] == r[j];
          assert s[k + 1] == r[j];
        }
        forall i, j | 0 < i < j < |r| ensures r[i].connectionDate >= r[j].connectionDate && r[i].userId != r[j].userId {
          assert r[i] == r[1..][i - 1] && r[j] == r[1..][j - 1];
        }
      } else {
        SubsequenceKeeps(r, s[1..]);
        forall x | x in r ensures x in s {
          var k :| 0 <= k < |s[1..]| && s[1..][k] == x;
          assert s[k + 1] == x;
        }
      }
    }
  }
}
